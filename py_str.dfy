/**
 * The Python string operations the watcher relies on, stated over `seq<char>`:
 * `str.find` and `str.rfind` for one character, `str.rpartition` and
 * `str.split` with a one-character separator, the substring test `sub in s`,
 * and `str.join`, which is the inverse of `split`.
 */
module PyStr {

  datatype Option<+T> = None | Some(value: T)

  /** Position of the first `c` in `s`; None when `s` holds no `c`. */
  function Find(s: string, c: char): (r: Option<nat>)
    ensures r.None? <==> c !in s
    ensures r.Some? ==> r.value < |s| && s[r.value] == c && c !in s[..r.value]
  {
    if |s| == 0 then None
    else if s[0] == c then Some(0)
    else
      assert s == [s[0]] + s[1..];
      match Find(s[1..], c)
      case None => None
      case Some(i) =>
        assert s[..i + 1] == [s[0]] + s[1..][..i];
        Some(i + 1)
  }

  /** Position of the last `c` in `s`; None when `s` holds no `c`. */
  function RFind(s: string, c: char): (r: Option<nat>)
    ensures r.None? <==> c !in s
    ensures r.Some? ==> r.value < |s| && s[r.value] == c && c !in s[r.value + 1..]
  {
    if |s| == 0 then None
    else if s[|s| - 1] == c then Some(|s| - 1)
    else
      var init := s[..|s| - 1];
      assert s == init + [s[|s| - 1]];
      match RFind(init, c)
      case None => None
      case Some(i) =>
        assert s[i + 1..] == init[i + 1..] + [s[|s| - 1]];
        Some(i)
  }

  /**
   * `s.rpartition(sep)`: the text before the last `sep`, the separator itself
   * and the text after it; when `s` has no `sep`, two empty strings and `s`.
   */
  function RPartition(s: string, sep: char): (r: (string, string, string))
    ensures r.0 + r.1 + r.2 == s
    ensures sep !in r.2
    ensures r.1 == if sep in s then [sep] else []
    ensures sep !in s ==> r.0 == []
  {
    match RFind(s, sep)
    case None => ([], [], s)
    case Some(i) =>
      assert s == s[..i] + [sep] + s[i + 1..];
      (s[..i], [sep], s[i + 1..])
  }

  /** The last `sep` of `before + [sep] + after` is the one after `before` when `after` holds none. */
  lemma {:induction false} RFindLast(before: string, sep: char, after: string)
    requires sep !in after
    ensures RFind(before + [sep] + after, sep) == Some(|before|)
    decreases |after|
  {
    var s := before + [sep] + after;
    if |after| > 0 {
      var init := after[..|after| - 1];
      assert s[|s| - 1] == after[|after| - 1];
      assert s[..|s| - 1] == before + [sep] + init;
      assert sep !in init by { NotInSlice(after, sep, 0, |after| - 1); }
      RFindLast(before, sep, init);
    }
  }

  /** The three parts of a partition are fixed by the properties RPartition promises. */
  lemma RPartitionUnique(s: string, sep: char, before: string, after: string)
    requires before + [sep] + after == s && sep !in after
    ensures RPartition(s, sep) == (before, [sep], after)
  {
    RFindLast(before, sep, after);
    assert s[..|before|] == before;
    assert s[|before| + 1..] == after;
  }

  /** `sub` starts at position `i` of `s`. */
  ghost predicate OccursAt(s: string, sub: string, i: nat) {
    i + |sub| <= |s| && s[i..i + |sub|] == sub
  }

  /** Python's `sub in s`: the empty string occurs in every string. */
  function Contains(s: string, sub: string): (r: bool)
    ensures r <==> exists i: nat :: OccursAt(s, sub, i)
    decreases |s|
  {
    if sub <= s then
      assert OccursAt(s, sub, 0);
      true
    else if |s| == 0 then
      false
    else
      ShiftOccurrences(s, sub);
      Contains(s[1..], sub)
  }

  /** When `sub` is not a prefix of `s`, it occurs in `s` exactly when it occurs in `s[1..]`. */
  lemma ShiftOccurrences(s: string, sub: string)
    requires |s| > 0 && !(sub <= s)
    ensures (exists i: nat :: OccursAt(s, sub, i)) <==> (exists i: nat :: OccursAt(s[1..], sub, i))
  {
    if i: nat :| OccursAt(s, sub, i) {
      assert i != 0;
      assert s[1..][i - 1..i - 1 + |sub|] == s[i..i + |sub|];
      assert OccursAt(s[1..], sub, i - 1);
    }
    if i: nat :| OccursAt(s[1..], sub, i) {
      assert s[i + 1..i + 1 + |sub|] == s[1..][i..i + |sub|];
      assert OccursAt(s, sub, i + 1);
    }
  }

  /** A string lacking some character of `sub` does not contain `sub`. */
  lemma MissingCharNotContained(s: string, sub: string, c: char)
    requires c in sub && c !in s
    ensures !Contains(s, sub)
  {
    forall i: nat
      ensures !OccursAt(s, sub, i)
    {
      if i + |sub| <= |s| {
        NotInSlice(s, c, i, i + |sub|);
      }
    }
  }

  /** A part of a string holds no `c` when the whole does not. */
  lemma NotInSlice(s: string, c: char, i: nat, j: nat)
    requires i <= j <= |s| && c !in s
    ensures c !in s[i..j]
  {
    forall k | 0 <= k < j - i
      ensures s[i..j][k] != c
    {
      assert s[i..j][k] == s[i + k];
    }
  }

  /** `sep.join(parts)`. */
  function Join(parts: seq<string>, sep: char): string
  {
    if |parts| == 0 then []
    else if |parts| == 1 then parts[0]
    else parts[0] + [sep] + Join(parts[1..], sep)
  }

  /**
   * `s.split(sep)`: the maximal `sep`-free pieces of `s`, in order; always at
   * least one, and more than one exactly when `s` holds a separator.
   */
  function Split(s: string, sep: char): (parts: seq<string>)
    ensures |parts| >= 1 && (|parts| == 1 <==> sep !in s)
    ensures forall k :: 0 <= k < |parts| ==> sep !in parts[k]
    decreases |s|
  {
    match Find(s, sep)
    case None => [s]
    case Some(i) =>
      var rest := Split(s[i + 1..], sep);
      assert sep in s[i + 1..] ==> sep in s;
      [s[..i]] + rest
  }

  /** Joining the pieces of a split gives the string back. */
  lemma {:induction false} JoinSplit(s: string, sep: char)
    ensures Join(Split(s, sep), sep) == s
    decreases |s|
  {
    match Find(s, sep)
    case None =>
    case Some(i) =>
      SplitAt(s, i);
      var rest := Split(s[i + 1..], sep);
      JoinSplit(s[i + 1..], sep);
      JoinCons(s[..i], rest, sep);
  }

  /** A split has one more piece than `s` has separators. */
  lemma {:induction false} SplitCount(s: string, sep: char)
    ensures |Split(s, sep)| == multiset(s)[sep] + 1
    decreases |s|
  {
    match Find(s, sep)
    case None =>
      assert sep !in multiset(s);
    case Some(i) =>
      SplitAt(s, i);
      assert multiset(s) == multiset(s[..i]) + multiset([sep]) + multiset(s[i + 1..]);
      assert sep !in multiset(s[..i]);
      SplitCount(s[i + 1..], sep);
  }

  /** Proof step: a string is its part before position `i`, the character there, and its part after. */
  lemma SplitAt(s: string, i: nat)
    requires i < |s|
    ensures s == s[..i] + [s[i]] + s[i + 1..]
  {
  }

  /** Proof step: joining a first piece in front of at least one more. */
  lemma JoinCons(head: string, rest: seq<string>, sep: char)
    requires |rest| >= 1
    ensures Join([head] + rest, sep) == head + [sep] + Join(rest, sep)
  {
    assert ([head] + rest)[1..] == rest;
  }

  /** The first part of a join starts it; a separator follows it when more parts come. */
  lemma JoinHead(parts: seq<string>, sep: char)
    requires |parts| >= 1
    ensures |parts[0]| <= |Join(parts, sep)| && Join(parts, sep)[..|parts[0]|] == parts[0]
    ensures |parts| == 1 ==> Join(parts, sep) == parts[0]
    ensures |parts| >= 2 ==>
              |parts[0]| < |Join(parts, sep)| && Join(parts, sep)[|parts[0]|] == sep
              && Join(parts, sep)[|parts[0]| + 1..] == Join(parts[1..], sep)
  {
    if |parts| >= 2 {
      var j := Join(parts, sep);
      assert j == parts[0] + [sep] + Join(parts[1..], sep);
      assert j[|parts[0]| + 1..] == Join(parts[1..], sep);
    }
  }

  /** The first `sep` of `before + [sep] + after` is the one after `before` when `before` holds none. */
  lemma {:induction false} FindFirst(before: string, sep: char, after: string)
    requires sep !in before
    ensures Find(before + [sep] + after, sep) == Some(|before|)
    decreases |before|
  {
    var s := before + [sep] + after;
    if |before| > 0 {
      assert s[0] == before[0];
      assert s[1..] == before[1..] + [sep] + after;
      assert sep !in before[1..] by { NotInSlice(before, sep, 1, |before|); }
      FindFirst(before[1..], sep, after);
    }
  }

  /** Text before a first `sep` and text after it are fixed by the whole. */
  lemma FirstSepInjective(x1: string, y1: string, x2: string, y2: string, sep: char)
    requires sep !in x1 && sep !in x2
    requires x1 + [sep] + y1 == x2 + [sep] + y2
    ensures x1 == x2 && y1 == y2
  {
    var u := x1 + [sep] + y1;
    FindFirst(x1, sep, y1);
    FindFirst(x2, sep, y2);
    assert x1 == u[..|x1|] && x2 == u[..|x2|];
    assert y1 == u[|x1| + 1..] && y2 == u[|x2| + 1..];
  }

  /** Splitting a join of separator-free pieces gives the pieces back. */
  lemma {:induction false} SplitJoin(parts: seq<string>, sep: char)
    requires |parts| >= 1
    requires forall k :: 0 <= k < |parts| ==> sep !in parts[k]
    ensures Split(Join(parts, sep), sep) == parts
    decreases |parts|
  {
    var s := Join(parts, sep);
    if |parts| > 1 {
      var tail := Join(parts[1..], sep);
      assert s == parts[0] + [sep] + tail;
      FindFirst(parts[0], sep, tail);
      assert s[..|parts[0]|] == parts[0];
      assert s[|parts[0]| + 1..] == tail;
      assert Split(s, sep) == [parts[0]] + Split(tail, sep);
      SplitJoin(parts[1..], sep);
      assert parts == [parts[0]] + parts[1..];
    }
  }

  /** The pieces of a prefix `a + [sep] + b` of `s` are slices of `s`. */
  lemma PrefixSlices(s: string, a: string, sep: char, b: string)
    requires a + [sep] + b <= s
    ensures a == s[..|a|] && b == s[|a| + 1..|a| + 1 + |b|]
  {
    var u := a + [sep] + b;
    assert u == s[..|u|];
    assert a == u[..|a|] == s[..|a|];
    assert b == u[|a| + 1..] == s[|a| + 1..|u|];
  }

  /**
   * When `s` holds `sep`, it starts with the first piece, a separator and the
   * second piece, and what remains is empty or starts with a separator.
   * Neither piece holds `sep`, nor any character `c` that `s` lacks (`c` is a
   * parameter because any character absent from a string, such as the path
   * separator in a base name, is absent from its pieces).
   */
  lemma {:induction false} SplitFirstTwo(s: string, sep: char, c: char)
    requires sep in s
    ensures |Split(s, sep)| >= 2
    ensures var p := Split(s, sep);
            && p[0] + [sep] + p[1] <= s
            && (|p[0]| + 1 + |p[1]| == |s| || s[|p[0]| + 1 + |p[1]|] == sep)
            && sep !in p[0] && sep !in p[1]
            && (c !in s ==> c !in p[0] && c !in p[1])
  {
    var p := Split(s, sep);
    var p0, p1 := p[0], p[1];
    assert sep !in p0 && sep !in p1;
    JoinSplit(s, sep);
    JoinHead(p, sep);
    var t := Join(p[1..], sep);
    assert s == p0 + [sep] + t;
    JoinHead(p[1..], sep);
    assert p1 <= t;
    if |p| >= 3 {
      assert t[|p1|] == sep;
      assert s[|p0| + 1 + |p1|] == t[|p1|];
    }
    if c !in s {
      PrefixSlices(s, p0, sep, p1);
      NotInSlice(s, c, 0, |p0|);
      NotInSlice(s, c, |p0| + 1, |p0| + 1 + |p1|);
    }
  }
}
