/** JavaScript's `String.prototype.split` for a separator of one character,
    the only form the image-format check uses (`type.split('/')`).
    The input is cut at every occurrence of the separator; the separators
    themselves are dropped, so `"a//b"` gives `["a", "", "b"]` and `""` gives
    `[""]`. */
module JsSplit {

  /** The longest prefix of `s` that holds no `sep`: the first piece `split`
      produces. */
  function TakeUntil(s: string, sep: char): (p: string)
    ensures |p| <= |s| && p == s[..|p|]
    ensures sep !in p
    ensures |p| < |s| ==> s[|p|] == sep
  {
    if s == [] || s[0] == sep then [] else [s[0]] + TakeUntil(s[1..], sep)
  }

  /** The pieces of `s` between occurrences of `sep`, in order. */
  function Split(s: string, sep: char): (parts: seq<string>)
    ensures |parts| >= 1
    ensures forall i :: 0 <= i < |parts| ==> sep !in parts[i]
    decreases |s|
  {
    var head := TakeUntil(s, sep);
    if |head| == |s| then [head] else [head] + Split(s[|head| + 1..], sep)
  }

  /** The inverse of `Split`: the pieces glued back with `sep` between them. */
  function Join(parts: seq<string>, sep: char): (s: string)
    requires |parts| >= 1
  {
    if |parts| == 1 then parts[0] else parts[0] + [sep] + Join(parts[1..], sep)
  }

  /** Number of occurrences of `c` in `s`. */
  function Occurrences(s: string, c: char): nat
  {
    if s == [] then 0 else (if s[0] == c then 1 else 0) + Occurrences(s[1..], c)
  }

  /** `TakeUntil` is determined by its contract: a prefix without the separator,
      followed by the separator, is exactly the first piece. */
  lemma TakeUntilOf(p: string, sep: char, rest: string)
    requires sep !in p
    ensures TakeUntil(p + [sep] + rest, sep) == p
    ensures TakeUntil(p, sep) == p
  {
    var s := p + [sep] + rest;
    assert s[..|p|] == p && s[|p|] == sep;
  }

  /** Gluing the pieces back together gives the original string. */
  lemma {:induction false} JoinSplit(s: string, sep: char)
    ensures Join(Split(s, sep), sep) == s
    decreases |s|
  {
    var head := TakeUntil(s, sep);
    if |head| < |s| {
      var rest := s[|head| + 1..];
      assert s == head + [sep] + rest;
      SplitCons(head, sep, rest);
      var pieces := Split(rest, sep);
      assert ([head] + pieces)[1..] == pieces;
      JoinSplit(rest, sep);
    }
  }

  /** A separator-free piece followed by the separator splits off as the first
      piece. */
  lemma SplitCons(p: string, sep: char, rest: string)
    requires sep !in p
    ensures Split(p + [sep] + rest, sep) == [p] + Split(rest, sep)
  {
    var s := p + [sep] + rest;
    TakeUntilOf(p, sep, rest);
    assert s[|p| + 1..] == rest;
  }

  /** Splitting a join of separator-free pieces gives those pieces back. */
  lemma {:induction false} SplitJoin(parts: seq<string>, sep: char)
    requires |parts| >= 1
    requires forall i :: 0 <= i < |parts| ==> sep !in parts[i]
    ensures Split(Join(parts, sep), sep) == parts
    decreases |parts|
  {
    if |parts| == 1 {
      TakeUntilOf(parts[0], sep, []);
    } else {
      var rest := Join(parts[1..], sep);
      assert sep !in parts[0];
      SplitCons(parts[0], sep, rest);
      SplitJoin(parts[1..], sep);
      assert parts == [parts[0]] + parts[1..];
    }
  }

  /** `split` yields one piece more than there are separators. */
  lemma {:induction false} SplitCount(s: string, sep: char)
    ensures |Split(s, sep)| == Occurrences(s, sep) + 1
    decreases |s|
  {
    var head := TakeUntil(s, sep);
    NoOccurrences(head, sep);
    if |head| == |s| {
      assert head == s;
    } else {
      var rest := s[|head| + 1..];
      assert s == head + ([sep] + rest);
      OccurrencesAppend(head, [sep] + rest, sep);
      OccurrencesAppend([sep], rest, sep);
      SplitCount(rest, sep);
    }
  }

  /** The first piece is `TakeUntil`, and there is a second piece exactly when
      the separator occurs; it is then the piece after the first separator. */
  lemma SplitFront(s: string, sep: char)
    ensures Split(s, sep)[0] == TakeUntil(s, sep)
    ensures |Split(s, sep)| >= 2 <==> sep in s
    ensures sep in s ==>
      Split(s, sep)[1] == TakeUntil(s[|TakeUntil(s, sep)| + 1..], sep)
  {
    var head := TakeUntil(s, sep);
    if |head| == |s| {
      assert head == s;
    } else {
      var rest := s[|head| + 1..];
      assert s[|head|] == sep;
      assert Split(s, sep) == [head] + Split(rest, sep);
      assert Split(rest, sep)[0] == TakeUntil(rest, sep);
    }
  }

  lemma {:induction false} OccurrencesAppend(a: string, b: string, c: char)
    ensures Occurrences(a + b, c) == Occurrences(a, c) + Occurrences(b, c)
  {
    if a != [] {
      assert (a + b)[1..] == a[1..] + b;
      OccurrencesAppend(a[1..], b, c);
    } else {
      assert a + b == b;
    }
  }

  lemma {:induction false} NoOccurrences(s: string, c: char)
    requires c !in s
    ensures Occurrences(s, c) == 0
  {
    if s != [] {
      assert c !in s[1..];
      NoOccurrences(s[1..], c);
    }
  }
}
