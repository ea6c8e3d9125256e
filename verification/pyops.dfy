/**
 The three Python built-ins whose exact behaviour the scraper relies on:
 slicing a list, `str.replace`, and `dict(zip(keys, values))`.
 */
module PyOps {

  // ---------------------------------------------------------------------------
  // list slicing: s[start:stop]
  // ---------------------------------------------------------------------------

  /** A slice bound as Python normalises it: negative bounds count from the
      end, and the outcome is clamped into [0, n]. */
  function SliceBound(i: int, n: nat): nat
  {
    if i < 0 then (if n + i < 0 then 0 else n + i)
    else if i > n then n
    else i
  }

  /** `s[start:stop]` with a step of 1. */
  function Slice<T>(s: seq<T>, start: int, stop: int): (r: seq<T>)
    ensures |r| <= |s|
    ensures forall k :: 0 <= k < |r| ==> SliceBound(start, |s|) + k < |s| && r[k] == s[SliceBound(start, |s|) + k]
  {
    var a := SliceBound(start, |s|);
    var b := SliceBound(stop, |s|);
    if a < b then s[a..b] else []
  }

  // ---------------------------------------------------------------------------
  // str.replace(pat, rep): every occurrence, leftmost first, non-overlapping
  // ---------------------------------------------------------------------------

  /** `pat` occurs in `s` starting at index `i`. */
  predicate MatchAt(s: string, i: nat, pat: string)
  {
    i + |pat| <= |s| && s[i..i + |pat|] == pat
  }

  /** `pat in s`, Python's substring test. */
  predicate Occurs(s: string, pat: string)
  {
    exists i: nat :: i <= |s| && MatchAt(s, i, pat)
  }

  /** `s.replace(pat, rep)`. The scan restarts after each replaced
      occurrence, so the inserted text is never rescanned; an empty `pat`
      inserts `rep` around every character, as Python does. */
  function Replace(s: string, pat: string, rep: string): string
    decreases |s|
  {
    if |pat| == 0 then
      (if |s| == 0 then rep else rep + [s[0]] + Replace(s[1..], pat, rep))
    else if |s| == 0 then s
    else if MatchAt(s, 0, pat) then rep + Replace(s[|pat|..], pat, rep)
    else [s[0]] + Replace(s[1..], pat, rep)
  }

  /** When no occurrence of `pat` starts inside the prefix `p`, the prefix
      passes through `replace` untouched. */
  lemma {:induction false} ReplacePrefix(p: string, s: string, pat: string, rep: string)
    requires |pat| > 0
    requires forall i: nat :: i < |p| ==> !MatchAt(p + s, i, pat)
    ensures Replace(p + s, pat, rep) == p + Replace(s, pat, rep)
    decreases |p|
  {
    if |p| > 0 {
      var c, w := p[0], p[1..];
      NoMatchShift(p, s, pat);
      assert p + s == [c] + (w + s);
      ReplaceCons(c, w + s, pat, rep);
      ReplacePrefix(w, s, pat, rep);
      var rest := Replace(s, pat, rep);
      assert Replace(p + s, pat, rep) == [c] + (w + rest);
      assert [c] + (w + rest) == ([c] + w) + rest;
      assert p == [c] + w;
    } else {
      assert p + s == s;
    }
  }

  /** At the leftmost occurrence of `pat`, `replace` emits `rep` and resumes
      scanning right after the occurrence: occurrences do not overlap, and
      the inserted text is never scanned again. */
  lemma ReplaceAt(p: string, s: string, pat: string, rep: string)
    requires |pat| > 0
    requires forall i: nat :: i < |p| ==> !MatchAt(p + pat + s, i, pat)
    ensures Replace(p + pat + s, pat, rep) == p + rep + Replace(s, pat, rep)
  {
    assert p + pat + s == p + (pat + s);
    ReplacePrefix(p, pat + s, pat, rep);
    assert MatchAt(pat + s, 0, pat);
    assert (pat + s)[|pat|..] == s;
  }

  /** Without a match at the front, `replace` emits the first character as is. */
  lemma ReplaceCons(c: char, w: string, pat: string, rep: string)
    requires |pat| > 0
    requires !MatchAt([c] + w, 0, pat)
    ensures Replace([c] + w, pat, rep) == [c] + Replace(w, pat, rep)
  {
    assert ([c] + w)[1..] == w;
  }

  /** No match inside the prefix `p` means none at its front, and none inside
      the prefix's tail once the first character is dropped. */
  lemma NoMatchShift(p: string, s: string, pat: string)
    requires |p| > 0
    requires forall i: nat :: i < |p| ==> !MatchAt(p + s, i, pat)
    ensures !MatchAt([p[0]] + (p[1..] + s), 0, pat)
    ensures forall i: nat :: i < |p| - 1 ==> !MatchAt(p[1..] + s, i, pat)
  {
    var u := p + s;
    assert u == [p[0]] + (p[1..] + s);
    assert !MatchAt(u, 0, pat);
    forall i: nat | i < |p| - 1
      ensures !MatchAt(p[1..] + s, i, pat)
    {
      assert u[1..] == p[1..] + s;
      MatchAtTail(u, i, pat);
    }
  }

  /** Dropping the first character shifts every match one place left. */
  lemma MatchAtTail(s: string, i: nat, pat: string)
    requires |s| > 0
    ensures MatchAt(s[1..], i, pat) <==> MatchAt(s, i + 1, pat)
  {
    if i + 1 + |pat| <= |s| {
      assert s[1..][i..i + |pat|] == s[i + 1..i + 1 + |pat|];
    }
  }

  /** A string in which `pat` does not occur is returned unchanged. */
  lemma ReplaceAbsent(s: string, pat: string, rep: string)
    requires !Occurs(s, pat)
    ensures Replace(s, pat, rep) == s
  {
    if |pat| == 0 {
      assert MatchAt(s, 0, pat);
      assert false;
    }
    forall i: nat | i < |s|
      ensures !MatchAt(s, i, pat)
    {
    }
    assert s + "" == s;
    ReplacePrefix(s, "", pat, rep);
  }

  /** A pattern that holds a character missing from `s` cannot occur in `s`. */
  lemma AbsentChar(s: string, pat: string, c: char)
    requires c in pat
    requires c !in s
    ensures !Occurs(s, pat)
  {
    var j :| 0 <= j < |pat| && pat[j] == c;
    forall i: nat | i <= |s|
      ensures !MatchAt(s, i, pat)
    {
    }
  }

  // ---------------------------------------------------------------------------
  // dict(zip(keys, values))
  // ---------------------------------------------------------------------------

  /** `zip` stops at the shorter of its two arguments. */
  function ZipLength<K, V>(ks: seq<K>, vs: seq<V>): nat
  {
    if |ks| <= |vs| then |ks| else |vs|
  }

  /** Position `i` holds the last of the first `n` keys that equals `ks[i]`. */
  predicate LastAt<K(==)>(ks: seq<K>, n: nat, i: nat)
  {
    i < n <= |ks| && forall j :: i < j < n ==> ks[j] != ks[i]
  }

  /** `dict(zip(ks, vs))`: pairs are inserted in order, and keys or values
      beyond the shorter list are ignored. */
  function ZipDict<K(==,!new), V>(ks: seq<K>, vs: seq<V>): (m: map<K, V>)
    ensures forall k :: k in m <==> k in ks[..ZipLength(ks, vs)]
    decreases |ks|
  {
    var n := ZipLength(ks, vs);
    if n == 0 then map[]
    else
      var ks', vs' := ks[..n - 1], vs[..n - 1];
      assert ZipLength(ks', vs') == n - 1 && ks'[..n - 1] == ks';
      assert ks[..n] == ks' + [ks[n - 1]];
      ZipDict(ks', vs')[ks[n - 1] := vs[n - 1]]
  }

  /** For a repeated key, the value paired with its last occurrence is the
      one kept. */
  lemma {:induction false} ZipDictLastWins<K(!new), V>(ks: seq<K>, vs: seq<V>)
    ensures var n, m := ZipLength(ks, vs), ZipDict(ks, vs);
            forall i :: 0 <= i < n && LastAt(ks, n, i) ==> ks[i] in m && m[ks[i]] == vs[i]
    decreases |ks|
  {
    var n := ZipLength(ks, vs);
    if n > 0 {
      var ks', vs' := ks[..n - 1], vs[..n - 1];
      assert ZipLength(ks', vs') == n - 1;
      ZipDictLastWins(ks', vs');
      var m', m := ZipDict(ks', vs'), ZipDict(ks, vs);
      assert m == m'[ks[n - 1] := vs[n - 1]];
      forall i | 0 <= i < n && LastAt(ks, n, i)
        ensures ks[i] in m && m[ks[i]] == vs[i]
      {
        if i < n - 1 {
          assert LastAt(ks', n - 1, i);
          assert ks[i] != ks[n - 1];
        }
      }
    }
  }
}
