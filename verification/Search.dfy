/** Pattern search and bounded copy over raw memory (src/utils/c_utils_str.c).

    A C `char` is a Dafny `char` and a run of C memory is a `string`.  A read or
    write outside the array is not excluded by a precondition: it is the outcome
    `Overrun`, so every theorem says for which inputs the code stays in bounds. */
module Search {

  /** size_t arithmetic wraps at this value. */
  const SIZE_T: nat := 0x1_0000_0000_0000_0000

  /** Result of a search: an index, the C value -1, or a read outside the memory. */
  datatype Found = At(index: nat) | Absent | Overrun

  /** `p` occurs in `t` at position `s`. */
  predicate MatchesAt(p: string, t: string, s: nat) {
    s + |p| <= |t| && t[s..s + |p|] == p
  }

  /** The least index at or after `from` where `p` occurs in `t`, or -1. */
  function FirstMatchFrom(p: string, t: string, from: nat): (r: int)
    requires p != []
    ensures -1 <= r
    ensures r == -1 ==> forall q :: from <= q ==> !MatchesAt(p, t, q)
    ensures r != -1 ==> from <= r && MatchesAt(p, t, r) && forall q :: from <= q < r ==> !MatchesAt(p, t, q)
    decreases |t| - from
  {
    if from + |p| > |t| then -1
    else if MatchesAt(p, t, from) then from
    else FirstMatchFrom(p, t, from + 1)
  }

  /** First occurrence of a non-empty pattern, or -1 exactly when there is none. */
  function FirstMatch(p: string, t: string): (r: int)
    requires p != []
    ensures -1 <= r
    ensures r == -1 <==> forall q: nat :: !MatchesAt(p, t, q)
    ensures r != -1 ==> r + |p| <= |t|
    ensures r != -1 ==> MatchesAt(p, t, r) && forall q: nat :: q < r ==> !MatchesAt(p, t, q)
  {
    FirstMatchFrom(p, t, 0)
  }

  /** A first occurrence is the only index with its two properties. */
  lemma FirstMatchUnique(p: string, t: string, s: nat)
    requires p != []
    requires MatchesAt(p, t, s)
    requires forall q: nat :: q < s ==> !MatchesAt(p, t, q)
    ensures FirstMatch(p, t) == s
  {
  }

  /** A position inside `t` matches in an extension of `t` just when it does in `t`. */
  lemma MatchInExtension(p: string, t: string, u: string, q: nat)
    ensures q + |p| <= |t| ==> (MatchesAt(p, t + u, q) <==> MatchesAt(p, t, q))
  {
  }

  /** A match survives every extension of the text, at the same index. */
  lemma PrefixStable(p: string, t: string, u: string)
    requires p != [] && FirstMatch(p, t) != -1
    ensures FirstMatch(p, t + u) == FirstMatch(p, t)
  {
    var s := FirstMatch(p, t);
    MatchInExtension(p, t, u, s);
    forall q: nat | q < s
      ensures !MatchesAt(p, t + u, q)
    {
      MatchInExtension(p, t, u, q);
    }
    FirstMatchUnique(p, t + u, s);
  }

  /** A match that appears only once the text is extended ends inside the extension. */
  lemma NewMatchEndsInExtension(p: string, t: string, u: string)
    requires p != [] && FirstMatch(p, t) == -1 && FirstMatch(p, t + u) != -1
    ensures FirstMatch(p, t + u) + |p| > |t|
  {
    MatchInExtension(p, t, u, FirstMatch(p, t + u));
  }

  /** A first match that ends within the first `k` characters is the first match of that prefix,
      and a longer one is not in the prefix at all. */
  lemma FirstMatchInPrefix(p: string, t: string, k: nat)
    requires p != [] && k <= |t|
    ensures FirstMatch(p, t[..k]) ==
            if FirstMatch(p, t) != -1 && FirstMatch(p, t) + |p| <= k then FirstMatch(p, t) else -1
  {
    assert t[..k] + t[k..] == t;
    if FirstMatch(p, t[..k]) != -1 {
      PrefixStable(p, t[..k], t[k..]);
    } else if FirstMatch(p, t) != -1 {
      NewMatchEndsInExtension(p, t[..k], t[k..]);
    }
  }

  /** The last index tried by the search loop: `t_len - p_len` in size_t arithmetic. */
  function LastStart(pLen: nat, tLen: nat): (r: nat)
    requires pLen < SIZE_T && tLen < SIZE_T
    ensures r == if pLen <= tLen then tLen - pLen else tLen + SIZE_T - pLen
  {
    (tLen + SIZE_T - pLen) % SIZE_T
  }

  /** Some index the loop tries has the whole rest of the memory as the beginning of a match,
      so the comparison runs past the end. */
  predicate RunsOff(p: string, mem: string, last: nat) {
    exists s: nat :: s <= last && s <= |mem| && mem[s..] < p
  }

  /** What the search returns for a text that starts at `mem[0]` and is said to be `tLen`
      long, where `mem` is all the memory from there to the end of the object. */
  function Scan(p: string, mem: string, tLen: nat): (r: Found)
    requires |p| < SIZE_T && tLen < SIZE_T
    ensures r.At? ==> r.index + |p| <= |mem|
    ensures p == [] ==> r == Absent
  {
    if p == [] then Absent
    else
      var s := FirstMatch(p, mem);
      var last := LastStart(|p|, tLen);
      if s != -1 && s <= last then At(s)
      else if RunsOff(p, mem, last) then Overrun
      else Absent
  }

  /** The documented meaning: an index, or -1, of the first occurrence in the text. */
  function Documented(p: string, text: string): Found
    requires p != []
  {
    if FirstMatch(p, text) == -1 then Absent else At(FirstMatch(p, text))
  }

  /** The search meets its documentation exactly when the pattern is not longer than the
      text; otherwise the bound wraps, and the code never gives the documented -1. */
  lemma ScanExact(p: string, mem: string, tLen: nat)
    requires p != [] && tLen <= |mem| && |mem| + |p| < SIZE_T
    ensures Scan(p, mem, tLen) == Documented(p, mem[..tLen]) <==> |p| <= tLen
    ensures tLen < |p| ==> Documented(p, mem[..tLen]) == Absent
    ensures tLen < |p| ==> Scan(p, mem, tLen) == (if FirstMatch(p, mem) == -1 then Overrun else At(FirstMatch(p, mem)))
  {
    hide LastStart;
    FirstMatchInPrefix(p, mem, tLen);
    if tLen < |p| {
      assert mem[|mem|..] < p;
    }
  }

  /** One differing character rules out a match, and a match cut off by the end, at `s`. */
  lemma Mismatch(p: string, t: string, s: nat, i: nat)
    requires i < |p| && s + i < |t| && t[s + i] != p[i]
    ensures !MatchesAt(p, t, s) && !(t[s..] < p)
  {
  }

  lemma Matched(p: string, t: string, s: nat)
    requires p != [] && s + |p| <= |t|
    requires t[s..s + |p| - 1] == p[..|p| - 1] && t[s + |p| - 1] == p[|p| - 1]
    ensures MatchesAt(p, t, s)
  {
  }

  /** `c_u_str_find_pattern(p, |p|, mem + at, tLen)`. */
  method FindPattern(p: string, mem: array<char>, at: nat, tLen: nat) returns (r: Found)
    requires at <= mem.Length
    requires mem.Length + |p| < SIZE_T && tLen < SIZE_T
    ensures r == Scan(p, mem[at..], tLen)
  {
    hide MatchesAt, LastStart;
    var last := LastStart(|p|, tLen);
    if p == [] {
      // the inner loop body never runs, so no index is ever returned
      return Absent;
    }
    ghost var rest := mem[at..];
    var s := 0;
    while s <= last
      invariant s <= |rest| && s <= last + 1
      invariant forall q: nat :: q < s ==> !MatchesAt(p, rest, q) && !(rest[q..] < p)
      decreases |rest| - s
    {
      var i := 0;
      while i < |p|
        invariant 0 <= i < |p|
        invariant s + i <= |rest| && rest[s..s + i] == p[..i]
      {
        if at + s + i >= mem.Length {
          assert rest[s..] == p[..i] && rest[s..] < p;
          return Overrun;
        }
        assert rest[s + i] == mem[at + s + i];
        if mem[at + s + i] != p[i] {
          Mismatch(p, rest, s, i);
          break;
        } else if i == |p| - 1 {
          Matched(p, rest, s);
          FirstMatchUnique(p, rest, s);
          return At(s);
        }
        assert rest[s..s + i + 1] == rest[s..s + i] + [rest[s + i]];
        i := i + 1;
      }
      s := s + 1;
    }
    r := Absent;
  }

  /** `c_u_str_copy_n(src + from, n, dst + to, dstSize)`. */
  method CopyN(src: array?<char>, from: nat, n: nat, dst: array?<char>, to: nat, dstSize: nat)
    returns (rc: int)
    requires src != null && dst != null && n <= dstSize ==> from + n <= src.Length && to + n <= dst.Length
    requires src != null ==> src != dst
    modifies dst
    ensures rc == (if src == null then -1 else if dst == null then -2 else if n > dstSize then -3 else 0)
    ensures rc == 0 ==> var was := old(dst[..]); dst[..] == was[..to] + old(src[from..from + n]) + was[to + n..]
    ensures rc != 0 && dst != null ==> dst[..] == old(dst[..])
  {
    if src == null { return -1; }
    if dst == null { return -2; }
    if n > dstSize { return -3; }
    ghost var was := dst[..];
    for i := 0 to n
      invariant dst[..] == was[..to] + old(src[from..from + i]) + was[to + i..]
    {
      dst[to + i] := src[from + i];
    }
    rc := 0;
  }
}
