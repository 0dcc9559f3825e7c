/**
  `String.prototype.split` with a one-character separator, as the middleware uses it to take
  a token out of a header, and its inverse `Array.prototype.join`.
 */
module JsString {
  import opened Wrappers

  /**
    Splits at every occurrence of `sep`: adjacent separators give empty fields, and the
    result always has one field more than `s` has separators (so `""` splits to `[""]`).
   */
  function Split(s: string, sep: char): (parts: seq<string>)
    ensures |parts| == multiset(s)[sep] + 1
    ensures forall i :: 0 <= i < |parts| ==> sep !in parts[i]
  {
    if s == [] then [""]
    else
      var rest := Split(s[1..], sep);
      assert s == [s[0]] + s[1..];
      if s[0] == sep then [""] + rest
      else
        var parts := [[s[0]] + rest[0]] + rest[1..];
        assert forall i :: 1 <= i < |parts| ==> parts[i] == rest[i];
        parts
  }

  /** Concatenates the fields with `sep` between neighbours. */
  function Join(parts: seq<string>, sep: char): string {
    if |parts| == 0 then ""
    else if |parts| == 1 then parts[0]
    else parts[0] + [sep] + Join(parts[1..], sep)
  }

  /** Putting an empty field in front of a join adds one separator in front. */
  lemma JoinEmptyFront(rest: seq<string>, sep: char)
    requires |rest| >= 1
    ensures Join([""] + rest, sep) == [sep] + Join(rest, sep)
  {
  }

  /** Extending the first field by one character extends the join by that character. */
  lemma JoinExtendFront(c: char, rest: seq<string>, sep: char)
    requires |rest| >= 1
    ensures Join([[c] + rest[0]] + rest[1..], sep) == [c] + Join(rest, sep)
  {
  }

  /** Joining the fields of a split gives back the original string. */
  lemma {:induction false} JoinSplit(s: string, sep: char)
    ensures Join(Split(s, sep), sep) == s
    decreases |s|
  {
    if s != [] {
      var tail := s[1..];
      JoinSplit(tail, sep);
      var rest := Split(tail, sep);
      assert Join(rest, sep) == tail;
      if s[0] == sep {
        assert Split(s, sep) == [""] + rest;
        JoinEmptyFront(rest, sep);
      } else {
        assert Split(s, sep) == [[s[0]] + rest[0]] + rest[1..];
        JoinExtendFront(s[0], rest, sep);
      }
      assert [s[0]] + tail == s;
    }
  }

  /** A field free of the separator, followed by the separator, becomes the first field of the split. */
  lemma {:induction false} SplitFieldThenSep(a: string, t: string, sep: char)
    requires sep !in a
    ensures Split(a + [sep] + t, sep) == [a] + Split(t, sep)
    decreases |a|
  {
    var s := a + [sep] + t;
    if a == [] {
      assert s[1..] == t;
    } else {
      assert s[1..] == a[1..] + [sep] + t;
      SplitFieldThenSep(a[1..], t, sep);
      assert [a[0]] + a[1..] == a;
    }
  }

  /** A string without the separator splits to itself. */
  lemma {:induction false} SplitNoSep(a: string, sep: char)
    requires sep !in a
    ensures Split(a, sep) == [a]
    decreases |a|
  {
    if a != [] {
      SplitNoSep(a[1..], sep);
      assert [a[0]] + a[1..] == a;
    }
  }

  /** Splitting a join of separator-free fields gives the fields back. */
  lemma {:induction false} SplitJoin(parts: seq<string>, sep: char)
    requires |parts| >= 1
    requires forall i :: 0 <= i < |parts| ==> sep !in parts[i]
    ensures Split(Join(parts, sep), sep) == parts
    decreases |parts|
  {
    if |parts| == 1 {
      SplitNoSep(parts[0], sep);
    } else {
      SplitJoin(parts[1..], sep);
      SplitFieldThenSep(parts[0], Join(parts[1..], sep), sep);
      assert [parts[0]] + parts[1..] == parts;
    }
  }

  /** The position of the first `c` in `s`, or `|s|` when there is none. */
  function FirstIndex(s: string, c: char): (i: nat)
    ensures i <= |s|
    ensures forall k :: 0 <= k < i ==> s[k] != c
    ensures i < |s| ==> s[i] == c
  {
    if s == [] then 0
    else if s[0] == c then 0
    else
      var i := FirstIndex(s[1..], c) + 1;
      assert forall k :: 1 <= k < i ==> s[k] == s[1..][k - 1];
      i
  }

  /** The first separator of `w + [c] + t`, for a word `w` free of it, sits right after `w`. */
  lemma FirstIndexAfterWord(w: string, t: string, c: char)
    requires c !in w
    ensures FirstIndex(w + [c] + t, c) == |w|
  {
    var s := w + [c] + t;
    assert s[|w|] == c;
    assert forall k :: 0 <= k < |w| ==> s[k] == w[k];
  }

  /**
    Field 1 described by positions: the text after the first separator, up to the next
    separator or the end; undefined when there is no separator at all.
   */
  function SecondField(s: string, sep: char): Option<string> {
    var i := FirstIndex(s, sep);
    if i == |s| then None
    else
      var rest := s[i + 1..];
      Some(rest[..FirstIndex(rest, sep)])
  }

  /** The first field of a split is the text before the first separator; the others split what follows it. */
  lemma {:induction false} SplitAtFirst(s: string, sep: char)
    ensures var i := FirstIndex(s, sep);
      && Split(s, sep)[0] == s[..i]
      && (i < |s| ==> Split(s, sep)[1..] == Split(s[i + 1..], sep))
  {
    var i := FirstIndex(s, sep);
    assert sep !in s[..i];
    if i < |s| {
      assert s == s[..i] + [sep] + s[i + 1..];
      SplitFieldThenSep(s[..i], s[i + 1..], sep);
    } else {
      assert s[..i] == s;
      SplitNoSep(s, sep);
    }
  }

  /** Index 1 of the split array agrees with the positional description of field 1. */
  lemma SecondFieldOfSplit(s: string, sep: char)
    ensures |Split(s, sep)| > 1 ==> SecondField(s, sep) == Some(Split(s, sep)[1])
    ensures |Split(s, sep)| <= 1 ==> SecondField(s, sep).None?
  {
    var i := FirstIndex(s, sep);
    SplitAtFirst(s, sep);
    if i < |s| {
      SplitAtFirst(s[i + 1..], sep);
      assert Split(s, sep)[1] == Split(s[i + 1..], sep)[0];
    } else {
      assert sep !in s;
      SplitNoSep(s, sep);
    }
  }
}
