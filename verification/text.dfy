/**
 * The JavaScript string built-ins the bill splitter relies on, restricted to
 * the forms it uses: a global character-class `replace`, `replace` with a
 * one-character string pattern (with `IndexOf` as its search for the first
 * occurrence), `split` on a one-character separator and `join`.
 */
module Text {
  import opened Wrappers

  predicate IsDigit(c: char) { '0' <= c <= '9' }

  /** Number of occurrences of `c` in `s`. */
  function Count(s: string, c: char): (n: nat)
    ensures n <= |s|
  {
    if s == [] then 0 else (if s[0] == c then 1 else 0) + Count(s[1..], c)
  }

  /** The characters of `s` that satisfy `keep`, in their original order
      (a global regular-expression `replace` with the empty string). */
  function Filter(s: string, keep: char -> bool): (r: string)
    ensures |r| <= |s|
  {
    if s == [] then [] else (if keep(s[0]) then [s[0]] else []) + Filter(s[1..], keep)
  }

  /** `s` with every occurrence of `c` removed. */
  function RemoveAll(s: string, c: char): (r: string)
    ensures |r| <= |s|
  {
    if s == [] then [] else (if s[0] == c then [] else [s[0]]) + RemoveAll(s[1..], c)
  }

  /** The position of the first `c` in `s` (what `s.indexOf(c)` returns),
      with `None` for -1: the search step of `replace` with a string pattern. */
  function IndexOf(s: string, c: char): (r: Option<nat>)
    ensures r.None? <==> c !in s
    ensures r.Some? ==> r.value < |s| && s[r.value] == c && c !in s[..r.value]
  {
    if s == [] then None
    else if s[0] == c then Some(0)
    else match IndexOf(s[1..], c)
      case None => None
      case Some(i) =>
        assert s[..i + 1] == [s[0]] + s[1..][..i];
        Some(i + 1)
  }

  /** `s.replace(a, b)` for one-character strings: only the FIRST `a` becomes `b`. */
  function ReplaceFirst(s: string, a: char, b: char): (r: string)
    ensures |r| == |s|
    ensures a !in s ==> r == s
  {
    match IndexOf(s, a)
    case None => s
    case Some(i) => s[..i] + [b] + s[i + 1..]
  }

  /** `s.split(sep)`: the pieces between the occurrences of `sep`; `""` splits into `[""]`. */
  function Split(s: string, sep: char): (parts: seq<string>)
    ensures |parts| >= 1
  {
    if s == [] then [[]]
    else
      var rest := Split(s[1..], sep);
      if s[0] == sep then [[]] + rest
      else [[s[0]] + rest[0]] + rest[1..]
  }

  /** `parts.join(sep)`; an empty array joins to `""`. */
  function Join(parts: seq<string>, sep: string): string
  {
    if |parts| == 0 then []
    else if |parts| == 1 then parts[0]
    else parts[0] + sep + Join(parts[1..], sep)
  }

  /** `s` with its first `c` kept and every later `c` removed; `s` itself when it has no `c`. */
  function KeepFirstOnly(s: string, c: char): string
  {
    if s == [] then []
    else if s[0] == c then [c] + RemoveAll(s[1..], c)
    else [s[0]] + KeepFirstOnly(s[1..], c)
  }

  // ---------------------------------------------------------------------
  // One character at a time

  lemma FilterCons(c: char, t: string, keep: char -> bool)
    ensures Filter([c] + t, keep) == (if keep(c) then [c] else []) + Filter(t, keep)
  {
    assert ([c] + t)[1..] == t;
  }

  lemma CountCons(c: char, t: string, x: char)
    ensures Count([c] + t, x) == (if c == x then 1 else 0) + Count(t, x)
  {
    assert ([c] + t)[1..] == t;
  }

  lemma SplitCons(c: char, t: string, sep: char)
    ensures Split([c] + t, sep) ==
              if c == sep then [[]] + Split(t, sep)
              else [[c] + Split(t, sep)[0]] + Split(t, sep)[1..]
  {
    assert ([c] + t)[1..] == t;
  }

  // ---------------------------------------------------------------------
  // Filter

  /** A filter keeps only characters of `s` that pass the test; it keeps
      everything when everything passes and nothing when nothing does. */
  lemma {:induction false} FilterFacts(s: string, keep: char -> bool)
    ensures forall c | c in Filter(s, keep) :: c in s && keep(c)
    ensures (forall c | c in s :: keep(c)) ==> Filter(s, keep) == s
    ensures (forall c | c in s :: !keep(c)) ==> Filter(s, keep) == []
  {
    if s != [] {
      var c, t := s[0], s[1..];
      assert s == [c] + t;
      FilterFacts(t, keep);
      FilterCons(c, t, keep);
      assert forall x | x in t :: x in s;
    }
  }

  lemma {:induction false} FilterAppend(x: string, y: string, keep: char -> bool)
    ensures Filter(x + y, keep) == Filter(x, keep) + Filter(y, keep)
  {
    if x == [] {
      assert x + y == y;
    } else {
      var c, t := x[0], x[1..];
      assert x == [c] + t;
      assert x + y == [c] + (t + y);
      FilterCons(c, t + y, keep);
      FilterCons(c, t, keep);
      FilterAppend(t, y, keep);
    }
  }

  /** Filtering by a weaker test first changes nothing. */
  lemma {:induction false} FilterNested(s: string, outer: char -> bool, inner: char -> bool)
    requires forall c :: inner(c) ==> outer(c)
    ensures Filter(Filter(s, outer), inner) == Filter(s, inner)
  {
    if s != [] {
      FilterNested(s[1..], outer, inner);
      FilterAppend(if outer(s[0]) then [s[0]] else [], Filter(s[1..], outer), inner);
    }
  }

  /** Replacing one character by another, neither of which is kept, is invisible to a filter. */
  lemma FilterReplaceFirst(s: string, a: char, b: char, keep: char -> bool)
    requires !keep(a) && !keep(b)
    ensures Filter(ReplaceFirst(s, a, b), keep) == Filter(s, keep)
  {
    match IndexOf(s, a)
    case None =>
    case Some(i) =>
      var before, after := s[..i], s[i + 1..];
      assert s == before + ([a] + after);
      assert ReplaceFirst(s, a, b) == before + ([b] + after);
      FilterAppend(before, [a] + after, keep);
      FilterAppend(before, [b] + after, keep);
      FilterCons(a, after, keep);
      FilterCons(b, after, keep);
  }

  /** A filter that rejects `c` sees no difference between `s` and `RemoveAll(s, c)`. */
  lemma {:induction false} FilterRemoveAll(s: string, c: char, keep: char -> bool)
    requires !keep(c)
    ensures Filter(RemoveAll(s, c), keep) == Filter(s, keep)
  {
    if s != [] {
      FilterRemoveAll(s[1..], c, keep);
      FilterAppend(if s[0] == c then [] else [s[0]], RemoveAll(s[1..], c), keep);
    }
  }

  lemma {:induction false} RemoveAllAppend(x: string, y: string, c: char)
    ensures RemoveAll(x + y, c) == RemoveAll(x, c) + RemoveAll(y, c)
  {
    if x == [] {
      assert x + y == y;
    } else {
      assert (x + y)[0] == x[0] && (x + y)[1..] == x[1..] + y;
      RemoveAllAppend(x[1..], y, c);
    }
  }

  /** No `c` is left, and nothing new appears. */
  lemma {:induction false} RemoveAllFacts(s: string, c: char)
    ensures c !in RemoveAll(s, c)
    ensures forall x | x in RemoveAll(s, c) :: x in s
  {
    if s != [] {
      var d, t := s[0], s[1..];
      assert s == [d] + t;
      RemoveAllFacts(t, c);
      assert forall x | x in t :: x in s;
    }
  }

  /** Removing a character that does not occur changes nothing. */
  lemma {:induction false} RemoveAllNone(s: string, c: char)
    requires c !in s
    ensures RemoveAll(s, c) == s
  {
    if s != [] {
      assert c !in s[1..];
      RemoveAllNone(s[1..], c);
    }
  }

  lemma {:induction false} RemoveAllLength(s: string, c: char)
    ensures |RemoveAll(s, c)| == |s| - Count(s, c)
  {
    if s != [] {
      RemoveAllLength(s[1..], c);
    }
  }

  // ---------------------------------------------------------------------
  // Count

  /** A character occurs zero times exactly when it is absent. */
  lemma {:induction false} CountZero(s: string, c: char)
    ensures Count(s, c) == 0 <==> c !in s
  {
    if s != [] {
      var d, t := s[0], s[1..];
      assert s == [d] + t;
      CountZero(t, c);
      assert c in s <==> d == c || c in t;
    }
  }

  lemma {:induction false} CountAppend(x: string, y: string, c: char)
    ensures Count(x + y, c) == Count(x, c) + Count(y, c)
  {
    if x == [] {
      assert x + y == y;
    } else {
      var d, t := x[0], x[1..];
      assert x == [d] + t;
      assert x + y == [d] + (t + y);
      CountCons(d, t + y, c);
      CountCons(d, t, c);
      CountAppend(t, y, c);
    }
  }

  /** Turning the first `a` into `c` adds exactly one `c`, if there was an `a`. */
  lemma CountReplaceFirst(s: string, a: char, c: char)
    requires a != c
    ensures Count(ReplaceFirst(s, a, c), c) == Count(s, c) + if a in s then 1 else 0
  {
    match IndexOf(s, a)
    case None =>
    case Some(i) =>
      var before, after := s[..i], s[i + 1..];
      assert s == before + ([a] + after);
      assert ReplaceFirst(s, a, c) == before + ([c] + after);
      CountAppend(before, [a] + after, c);
      CountAppend(before, [c] + after, c);
      CountCons(a, after, c);
      CountCons(c, after, c);
  }

  // ---------------------------------------------------------------------
  // Split and Join

  /** Gluing text onto the first piece glues it onto the front of the join. */
  lemma JoinPrepend(x: string, parts: seq<string>, sep: string)
    requires |parts| >= 1
    ensures Join([x + parts[0]] + parts[1..], sep) == x + Join(parts, sep)
  {
    var glued := [x + parts[0]] + parts[1..];
    assert glued[0] == x + parts[0] && glued[1..] == parts[1..];
    if |parts| > 1 {
      assert x + parts[0] + sep + Join(parts[1..], sep) == x + (parts[0] + sep + Join(parts[1..], sep));
    }
  }

  /** A leading empty piece becomes a leading separator. */
  lemma JoinEmptyHead(parts: seq<string>, sep: string)
    requires |parts| >= 1
    ensures Join([[]] + parts, sep) == sep + Join(parts, sep)
  {
    var longer := [[]] + parts;
    assert longer[0] == [] && longer[1..] == parts;
    assert [] + sep == sep;
  }

  /** Joining the pieces of a split with the separator gives back the text. */
  lemma {:induction false} JoinSplit(s: string, sep: char)
    ensures Join(Split(s, sep), [sep]) == s
  {
    if s != [] {
      var c, t := s[0], s[1..];
      assert s == [c] + t;
      var rest := Split(t, sep);
      JoinSplit(t, sep);
      SplitCons(c, t, sep);
      if c == sep {
        JoinEmptyHead(rest, [sep]);
      } else {
        JoinPrepend([c], rest, [sep]);
      }
    }
  }

  /** Splitting the join of separator-free pieces gives back the pieces. */
  lemma {:induction false} SplitJoin(parts: seq<string>, sep: char)
    requires |parts| >= 1
    requires forall p | p in parts :: sep !in p
    ensures Split(Join(parts, [sep]), sep) == parts
  {
    var head := parts[0];
    assert sep !in head by { assert head in parts; }
    if |parts| == 1 {
      calc {
        Split(Join(parts, [sep]), sep);
        Split(head, sep);
        { SplitNone(head, sep); }
        [head];
        parts;
      }
    } else {
      var others := parts[1..];
      assert forall p | p in others :: sep !in p by {
        forall p | p in others ensures sep !in p { assert p in parts; }
      }
      var tail := Join(others, [sep]);
      calc {
        Split(Join(parts, [sep]), sep);
        Split(head + [sep] + tail, sep);
        { assert head + [sep] + tail == head + ([sep] + tail); }
        Split(head + ([sep] + tail), sep);
        { SplitFree(head, [sep] + tail, sep); SplitCons(sep, tail, sep); }
        [head + []] + Split(tail, sep);
        { SplitJoin(others, sep); assert head + [] == head; }
        [head] + others;
        parts;
      }
    }
  }

  /** `s.replace(a, b)` changes exactly the first `a`, and nothing else. */
  lemma ReplaceFirstSpec(s: string, a: char, b: char)
    ensures forall i | 0 <= i < |s| ::
              ReplaceFirst(s, a, b)[i] == if s[i] == a && a !in s[..i] then b else s[i]
  {
    match IndexOf(s, a)
    case None =>
    case Some(i) =>
      forall j | 0 <= j < |s|
        ensures ReplaceFirst(s, a, b)[j] == if s[j] == a && a !in s[..j] then b else s[j]
      {
        if j > i {
          assert s[..j][i] == a;
        }
      }
  }

  /** Replacing in text whose first `a` follows an `a`-free prefix. */
  lemma ReplaceFirstAt(x: string, y: string, a: char, b: char)
    requires a !in x
    ensures ReplaceFirst(x + [a] + y, a, b) == x + [b] + y
  {
    var s := x + [a] + y;
    var i := |x|;
    assert s[i] == a && s[..i] == x;
    assert IndexOf(s, a) == Some(i);
    assert s[i + 1..] == y;
  }

  /** A split has one piece more than there are separators. */
  lemma {:induction false} SplitCount(s: string, sep: char)
    ensures |Split(s, sep)| == Count(s, sep) + 1
  {
    if s != [] {
      var c, t := s[0], s[1..];
      assert s == [c] + t;
      SplitCount(t, sep);
      SplitCons(c, t, sep);
      CountCons(c, t, sep);
    }
  }

  /** No piece of a split contains the separator. */
  lemma {:induction false} SplitPiecesFree(s: string, sep: char)
    ensures forall p | p in Split(s, sep) :: sep !in p
  {
    if s != [] {
      var c, t := s[0], s[1..];
      assert s == [c] + t;
      var rest := Split(t, sep);
      SplitPiecesFree(t, sep);
      SplitCons(c, t, sep);
      assert forall p | p in rest[1..] :: p in rest;
      assert rest[0] in rest;
    }
  }

  /** Text without the separator splits into itself alone. */
  lemma {:induction false} SplitNone(s: string, sep: char)
    requires sep !in s
    ensures Split(s, sep) == [s]
  {
    if s != [] {
      var c, t := s[0], s[1..];
      assert s == [c] + t;
      SplitNone(t, sep);
      SplitCons(c, t, sep);
    }
  }

  /** A separator-free prefix glues onto the first piece. */
  lemma {:induction false} SplitFree(x: string, y: string, sep: char)
    requires forall i | 0 <= i < |x| :: x[i] != sep
    ensures Split(x + y, sep) == [x + Split(y, sep)[0]] + Split(y, sep)[1..]
  {
    var parts := Split(y, sep);
    if x == [] {
      assert x + y == y;
      assert x + parts[0] == parts[0];
      assert parts == [parts[0]] + parts[1..];
    } else {
      var c, t := x[0], x[1..];
      assert forall i | 0 <= i < |t| :: t[i] != sep by {
        forall i | 0 <= i < |t| ensures t[i] != sep { assert t[i] == x[i + 1]; }
      }
      SplitFree(t, y, sep);
      var inner := Split(t + y, sep);
      assert inner[0] == t + parts[0] && inner[1..] == parts[1..];
      assert c != sep;
      calc {
        Split(x + y, sep);
        { assert x + y == [c] + (t + y); }
        Split([c] + (t + y), sep);
        { SplitCons(c, t + y, sep); }
        [[c] + inner[0]] + inner[1..];
        { assert [c] + (t + parts[0]) == x + parts[0]; }
        [x + parts[0]] + parts[1..];
      }
    }
  }

  /** Joining the pieces with nothing between them removes every separator. */
  lemma {:induction false} JoinSplitRemoves(s: string, sep: char)
    ensures Join(Split(s, sep), []) == RemoveAll(s, sep)
  {
    if s != [] {
      var c, t := s[0], s[1..];
      assert s == [c] + t;
      var rest := Split(t, sep);
      JoinSplitRemoves(t, sep);
      SplitCons(c, t, sep);
      if c == sep {
        JoinEmptyHead(rest, []);
        assert [] + Join(rest, []) == Join(rest, []);
      } else {
        JoinPrepend([c], rest, []);
      }
    }
  }

  /** `parts[0] + sep + parts.slice(1).join('')` keeps the first separator and drops the rest. */
  lemma {:induction false} SplitHeadJoinTail(s: string, sep: char)
    requires Count(s, sep) >= 1
    ensures var parts := Split(s, sep);
            parts[0] + [sep] + Join(parts[1..], []) == KeepFirstOnly(s, sep)
  {
    var c, t := s[0], s[1..];
    assert s == [c] + t;
    var rest := Split(t, sep);
    SplitCons(c, t, sep);
    var parts := Split(s, sep);
    if c == sep {
      assert parts[0] == [] && parts[1..] == rest;
      JoinSplitRemoves(t, sep);
      assert [] + [sep] + RemoveAll(t, sep) == [sep] + RemoveAll(t, sep);
    } else {
      CountCons(c, t, sep);
      assert parts[0] == [c] + rest[0] && parts[1..] == rest[1..];
      SplitHeadJoinTail(t, sep);
      assert [c] + rest[0] + [sep] + Join(rest[1..], []) == [c] + (rest[0] + [sep] + Join(rest[1..], []));
    }
  }

  // ---------------------------------------------------------------------
  // KeepFirstOnly

  /** Keeping only the first `c`: exactly one `c` survives, nothing new appears,
      and the text shrinks by the number of dropped copies. */
  lemma {:induction false} KeepFirstOnlyFacts(s: string, c: char)
    requires c in s
    ensures Count(KeepFirstOnly(s, c), c) == 1
    ensures |KeepFirstOnly(s, c)| == |s| - Count(s, c) + 1
    ensures forall x | x in KeepFirstOnly(s, c) :: x in s
  {
    var d, t := s[0], s[1..];
    assert s == [d] + t;
    CountCons(d, t, c);
    if d == c {
      var tail := RemoveAll(t, c);
      RemoveAllLength(t, c);
      RemoveAllFacts(t, c);
      CountZero(tail, c);
      CountCons(c, tail, c);
    } else {
      KeepFirstOnlyFacts(t, c);
      CountCons(d, KeepFirstOnly(t, c), c);
    }
  }

  /** Text before the first `c` is kept, and every `c` after it is removed. */
  lemma {:induction false} KeepFirstOnlyAt(x: string, y: string, c: char)
    requires c !in x
    ensures KeepFirstOnly(x + [c] + y, c) == x + [c] + RemoveAll(y, c)
  {
    if x == [] {
      assert x + [c] + y == [c] + y;
      assert ([c] + y)[1..] == y;
    } else {
      var s := x + [c] + y;
      assert s[0] == x[0] && s[1..] == x[1..] + [c] + y;
      assert c !in x[1..];
      KeepFirstOnlyAt(x[1..], y, c);
      assert [x[0]] + (x[1..] + [c] + RemoveAll(y, c)) == x + [c] + RemoveAll(y, c);
    }
  }

  /** A filter that rejects `c` sees no difference between `s` and `KeepFirstOnly(s, c)`. */
  lemma {:induction false} FilterKeepFirstOnly(s: string, c: char, keep: char -> bool)
    requires !keep(c)
    ensures Filter(KeepFirstOnly(s, c), keep) == Filter(s, keep)
  {
    if s != [] {
      if s[0] == c {
        FilterAppend([c], RemoveAll(s[1..], c), keep);
        FilterRemoveAll(s[1..], c, keep);
      } else {
        FilterKeepFirstOnly(s[1..], c, keep);
        FilterAppend([s[0]], KeepFirstOnly(s[1..], c), keep);
      }
    }
  }
}
