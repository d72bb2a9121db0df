/** The replace() script function (grammar/rainerscript.c: doFuncReplace). */
module Replace {

  predicate OccursAt(s: string, find: string, i: nat) {
    i + |find| <= |s| && forall k :: 0 <= k < |find| ==> s[i + k] == find[k]
  }

  /** Replacement in the part of the source behind index k. */
  function ReplaceFrom(src: string, find: string, rep: string, k: nat): string
    requires find != "" && k <= |src|
    decreases |src| - k
  {
    if k == |src| then ""
    else if OccursAt(src, find, k) then rep + ReplaceFrom(src, find, rep, k + |find|)
    else [src[k]] + ReplaceFrom(src, find, rep, k + 1)
  }

  /** An empty search string yields just the replacement. */
  function Result(src: string, find: string, rep: string): string {
    if find == "" then rep else ReplaceFrom(src, find, rep, 0)
  }

  // ----- what replacement means, without an algorithm -----

  function Joined(gaps: seq<string>, sep: string): string {
    if gaps == [] then "" else if |gaps| == 1 then gaps[0] else gaps[0] + sep + Joined(gaps[1..], sep)
  }

  /** The search string is found right behind the gap and nowhere earlier. */
  predicate FirstBehind(gap: string, find: string) {
    forall i :: 0 <= i < |gap| ==> !OccursAt(gap + find, find, i)
  }

  predicate NoneIn(s: string, find: string) {
    forall i :: 0 <= i <= |s| ==> !OccursAt(s, find, i)
  }

  predicate LeftmostGaps(gaps: seq<string>, find: string) {
    && gaps != []
    && (forall k :: 0 <= k < |gaps| - 1 ==> FirstBehind(gaps[k], find))
    && NoneIn(gaps[|gaps| - 1], find)
  }

  lemma JoinedCons(g: string, gaps: seq<string>, sep: string)
    requires gaps != []
    ensures Joined([g] + gaps, sep) == g + sep + Joined(gaps, sep)
  {
    assert ([g] + gaps)[1..] == gaps;
  }

  lemma JoinedGrow(c: char, gaps: seq<string>, sep: string)
    requires gaps != []
    ensures Joined([[c] + gaps[0]] + gaps[1..], sep) == [c] + Joined(gaps, sep)
  {
    assert ([[c] + gaps[0]] + gaps[1..])[1..] == gaps[1..];
  }

  lemma JoinedStartsWith(gaps: seq<string>, sep: string)
    requires |gaps| >= 2
    ensures gaps[0] + sep <= Joined(gaps, sep)
  {}

  lemma OccursShift(a: string, b: string, find: string, c: char, i: nat)
    requires a == [c] + b && i > 0
    ensures OccursAt(a, find, i) <==> OccursAt(b, find, i - 1)
  {
    assert forall m :: i <= m < |a| ==> a[m] == b[m - 1];
    assert forall m :: i - 1 <= m < |b| ==> b[m] == a[m + 1];
  }

  /** A character at which the search string does not start may be put in front of the first gap. */
  lemma {:induction false} GapGrows(c: char, gaps: seq<string>, find: string)
    requires find != "" && LeftmostGaps(gaps, find)
    requires !OccursAt([c] + Joined(gaps, find), find, 0)
    ensures LeftmostGaps([[c] + gaps[0]] + gaps[1..], find)
  {
    var g := [c] + gaps[0];
    if |gaps| == 1 {
      forall i | 0 <= i <= |g| ensures !OccursAt(g, find, i) {
        if i > 0 { OccursShift(g, gaps[0], find, c, i); }
      }
    } else {
      JoinedStartsWith(gaps, find);
      var whole := [c] + Joined(gaps, find);
      assert g + find <= whole;
      forall i | 0 <= i < |g| ensures !OccursAt(g + find, find, i) {
        if i > 0 {
          assert g + find == [c] + (gaps[0] + find);
          OccursShift(g + find, gaps[0] + find, find, c, i);
        } else {
          assert forall k :: 0 <= k < |find| ==> whole[k] == (g + find)[k];
        }
      }
    }
  }

  lemma OccursInSuffix(src: string, find: string, k: nat)
    requires k <= |src|
    ensures OccursAt(src[k..], find, 0) <==> OccursAt(src, find, k)
  {
    assert forall i :: 0 <= i < |src| - k ==> src[k..][i] == src[k + i];
  }

  /** The source splits at leftmost, non-overlapping occurrences of the search string, and the
      result is the source with each of these occurrences replaced. */
  lemma {:induction false} SplitsLeftmost(src: string, find: string, rep: string, k: nat) returns (gaps: seq<string>)
    requires find != "" && k <= |src|
    ensures LeftmostGaps(gaps, find)
    ensures Joined(gaps, find) == src[k..]
    ensures Joined(gaps, rep) == ReplaceFrom(src, find, rep, k)
    decreases |src| - k
  {
    if k == |src| {
      gaps := [""];
    } else if OccursAt(src, find, k) {
      var rest := SplitsLeftmost(src, find, rep, k + |find|);
      gaps := [""] + rest;
      SplitMatch(src, rest, find, rep, k);
      assert ReplaceFrom(src, find, rep, k) == rep + ReplaceFrom(src, find, rep, k + |find|);
    } else {
      var rest := SplitsLeftmost(src, find, rep, k + 1);
      gaps := [[src[k]] + rest[0]] + rest[1..];
      SplitChar(src, rest, find, rep, k);
      assert ReplaceFrom(src, find, rep, k) == [src[k]] + ReplaceFrom(src, find, rep, k + 1);
    }
  }

  lemma {:induction false} SplitMatch(src: string, rest: seq<string>, find: string, rep: string, k: nat)
    requires find != "" && k < |src| && OccursAt(src, find, k) && LeftmostGaps(rest, find)
    requires Joined(rest, find) == src[k + |find|..]
    ensures LeftmostGaps([""] + rest, find) && Joined([""] + rest, find) == src[k..]
    ensures Joined([""] + rest, rep) == rep + Joined(rest, rep)
  {
    JoinedCons("", rest, find);
    JoinedCons("", rest, rep);
    assert src[k..] == find + src[k + |find|..];
    assert "" + find + Joined(rest, find) == find + Joined(rest, find);
  }

  lemma {:induction false} SplitChar(src: string, rest: seq<string>, find: string, rep: string, k: nat)
    requires find != "" && k < |src| && !OccursAt(src, find, k) && LeftmostGaps(rest, find)
    requires Joined(rest, find) == src[k + 1..]
    ensures var gaps := [[src[k]] + rest[0]] + rest[1..];
            && LeftmostGaps(gaps, find) && Joined(gaps, find) == src[k..]
            && Joined(gaps, rep) == [src[k]] + Joined(rest, rep)
  {
    assert src[k..] == [src[k]] + src[k + 1..];
    OccursInSuffix(src, find, k);
    JoinedGrow(src[k], rest, find);
    JoinedGrow(src[k], rest, rep);
    GapGrows(src[k], rest, find);
  }

  lemma ReplaceIsLeftmost(src: string, find: string, rep: string)
    requires find != ""
    ensures exists gaps :: LeftmostGaps(gaps, find) && Joined(gaps, find) == src && Joined(gaps, rep) == Result(src, find, rep)
  {
    var gaps := SplitsLeftmost(src, find, rep, 0);
    assert src[0..] == src;
  }

  // ----- the two passes -----

  /** What is left when less than the search string remains is copied as it is. */
  lemma {:induction false} ShortTail(src: string, find: string, rep: string, k: nat)
    requires k <= |src| < k + |find|
    ensures ReplaceFrom(src, find, rep, k) == src[k..]
    decreases |src| - k
  {
    if k < |src| {
      ShortTail(src, find, rep, k + 1);
      assert src[k..] == [src[k]] + src[k + 1..];
    }
  }

  /** First pass: the length of the result. The candidate match starts at i - j. */
  method CountPass(src: string, find: string, rep: string) returns (lDst: nat)
    ensures lDst == |Result(src, find, rep)|
  {
    var i, j := 0, 0;
    var n: int := 0;
    ghost var total := Result(src, find, rep);
    while i <= |src|
      invariant 0 <= j <= |find| && j <= i <= |src|
      invariant forall k :: 0 <= k < j ==> src[i - j + k] == find[k]
      invariant find == "" ==> n == i == 0
      invariant find != "" ==> n - j + |ReplaceFrom(src, find, rep, i - j)| == |total|
      decreases |src| - (i - j), |find| - j
    {
      if j == |find| {
        n := n - |find| + |rep|;
        j := 0;
        if |find| == 0 { break; }
      }
      if i == |src| { break; }
      if src[i] == find[j] {
        j := j + 1;
      } else if j > 0 {
        assert !OccursAt(src, find, i - j);
        i := i - j;
        n := n - j;
        j := 0;
      }
      i := i + 1;
      n := n + 1;
    }
    if find != "" {
      ShortTail(src, find, rep, i - j);
    }
    lDst := n;
  }

  /** Behind index p of the result comes what replacement makes of the source behind index q. */
  ghost predicate Pending(total: string, p: int, src: string, find: string, rep: string, q: int) {
    find != "" && 0 <= p <= |total| && 0 <= q <= |src| && total[p..] == ReplaceFrom(src, find, rep, q)
  }

  lemma PendingStart(src: string, find: string, rep: string)
    requires find != ""
    ensures Pending(Result(src, find, rep), 0, src, find, rep, 0)
  {
    var total := Result(src, find, rep);
    assert total[0..] == total;
  }

  lemma {:induction false} PendingMatch(total: string, p: int, src: string, find: string, rep: string, q: int)
    requires Pending(total, p, src, find, rep, q) && q < |src| && OccursAt(src, find, q)
    ensures Pending(total, p + |rep|, src, find, rep, q + |find|)
    ensures forall m :: p <= m < p + |rep| ==> total[m] == rep[m - p]
  {
    var tail := ReplaceFrom(src, find, rep, q + |find|);
    assert total[p..] == rep + tail;
    assert total[p + |rep|..] == tail;
    assert forall m :: p <= m < p + |rep| ==> total[m] == total[p..][m - p];
  }

  lemma {:induction false} PendingChar(total: string, p: int, src: string, find: string, rep: string, q: int)
    requires Pending(total, p, src, find, rep, q) && q < |src| && !OccursAt(src, find, q)
    ensures Pending(total, p + 1, src, find, rep, q + 1)
    ensures total[p] == src[q]
  {
    var tail := ReplaceFrom(src, find, rep, q + 1);
    assert total[p..] == [src[q]] + tail;
    assert total[p..][0] == src[q];
    assert total[p + 1..] == total[p..][1..];
  }

  lemma {:induction false} PendingTail(total: string, p: int, src: string, find: string, rep: string, q: int)
    requires Pending(total, p, src, find, rep, q) && |src| < q + |find|
    ensures |total| - p == |src| - q
    ensures forall m :: p <= m < |total| ==> total[m] == src[q - p + m]
  {
    ShortTail(src, find, rep, q);
    assert total[p..] == src[q..];
    assert forall m :: p <= m < |total| ==> total[m] == total[p..][m - p];
  }

  /** The copy loop for the replacement. */
  method WriteReplacement(dest: array<char>, start: nat, rep: string)
    requires start + |rep| <= dest.Length
    modifies dest
    ensures forall m :: 0 <= m < start ==> dest[m] == old(dest[m])
    ensures forall m :: start <= m < start + |rep| ==> dest[m] == rep[m - start]
  {
    var k := 0;
    while k < |rep|
      invariant 0 <= k <= |rep|
      invariant forall m :: 0 <= m < start ==> dest[m] == old(dest[m])
      invariant forall m :: start <= m < start + k ==> dest[m] == rep[m - start]
    {
      dest[start + k] := rep[k];
      k := k + 1;
    }
  }

  /** The copy loop for a partial match at the end of the source; it runs backwards. */
  method WriteTail(dest: array<char>, s: nat, src: string, j: nat)
    requires j <= s <= dest.Length && j <= |src|
    modifies dest
    ensures forall m :: 0 <= m < s - j ==> dest[m] == old(dest[m])
    ensures forall m :: s - j <= m < s ==> dest[m] == src[|src| - s + m]
  {
    var k := 1;
    while k <= j
      invariant 1 <= k <= j + 1
      invariant forall m :: 0 <= m < s - j ==> dest[m] == old(dest[m])
      invariant forall m :: s - k < m < s ==> dest[m] == src[|src| - s + m]
    {
      dest[s - k] := src[|src| - k];
      k := k + 1;
    }
  }

  /** A complete match: the replacement goes where the match began. */
  method FinishMatch(src: string, find: string, rep: string, dest: array<char>, ghost total: string, i: nat, s: nat)
    returns (s': nat)
    requires |find| <= i <= |src| && OccursAt(src, find, i - |find|) && |total| == dest.Length
    requires Pending(total, s, src, find, rep, i - |find|)
    requires forall m :: 0 <= m < s ==> dest[m] == total[m]
    modifies dest
    ensures Pending(total, s', src, find, rep, i)
    ensures forall m :: 0 <= m < s' ==> dest[m] == total[m]
  {
    PendingMatch(total, s, src, find, rep, i - |find|);
    WriteReplacement(dest, s, rep);
    s' := s + |rep|;
  }

  /** A mismatch after j matching characters: only the first of them is copied, the rest is scanned again. */
  method CopyChar(src: string, find: string, rep: string, dest: array<char>, ghost total: string, i: nat, s: nat, j: nat)
    returns (i': nat, s': nat)
    requires j <= i < |src| && j <= s && j < |find| && src[i] != find[j] && |total| == dest.Length
    requires Pending(total, s - j, src, find, rep, i - j)
    requires forall m :: 0 <= m < s - j ==> dest[m] == total[m]
    modifies dest
    ensures i' == i - j && s' == s - j && Pending(total, s' + 1, src, find, rep, i' + 1)
    ensures forall m :: 0 <= m < s' + 1 ==> dest[m] == total[m]
  {
    i', s' := i, s;
    assert !OccursAt(src, find, i - j);
    if j > 0 {
      i' := i' - j;
      s' := s' - j;
    }
    PendingChar(total, s', src, find, rep, i');
    dest[s'] := src[i'];
  }

  /** The state of the second pass: everything before the current partial match of length j is written. */
  ghost predicate Writing(src: string, find: string, rep: string, dest: array<char>, total: string, i: int, j: int, s: int)
    reads dest
  {
    && 0 <= j <= |find| && j <= i <= |src| && j <= s && |total| == dest.Length
    && (forall k :: 0 <= k < j ==> src[i - j + k] == find[k])
    && Pending(total, s - j, src, find, rep, i - j)
    && forall m :: 0 <= m < s - j ==> dest[m] == total[m]
  }

  /** One source character of the second pass. */
  method Advance(src: string, find: string, rep: string, dest: array<char>, ghost total: string, i: nat, j: nat, s: nat)
    returns (i': nat, j': nat, s': nat)
    requires Writing(src, find, rep, dest, total, i, j, s) && i < |src| && j < |find|
    modifies dest
    ensures Writing(src, find, rep, dest, total, i', j', s')
    ensures i' - j' > i - j || (i' - j' == i - j && j' > j)
  {
    i', j', s' := i, j, s;
    if src[i] == find[j] {
      j' := j + 1;
    } else {
      i', s' := CopyChar(src, find, rep, dest, total, i, s, j);
      j' := 0;
    }
    i', s' := i' + 1, s' + 1;
  }

  /** Second pass: the result itself, written into a buffer of exactly the counted length. */
  method WritePass(src: string, find: string, rep: string, dest: array<char>, ghost total: string)
    requires dest.Length == |total|
    requires if find == "" then total == rep else Pending(total, 0, src, find, rep, 0)
    modifies dest
    ensures dest[..] == total
  {
    var i, j, s := 0, 0, 0;
    while i <= |src|
      invariant if find == "" then s == i == j == 0 else Writing(src, find, rep, dest, total, i, j, s)
      decreases |src| - (i - j), |find| - j
    {
      if j == |find| {
        s := s - j;
        if |find| == 0 {
          WriteReplacement(dest, s, rep);
          break;
        }
        s := FinishMatch(src, find, rep, dest, total, i, s);
        j := 0;
      }
      if i == |src| { break; }
      i, j, s := Advance(src, find, rep, dest, total, i, j, s);
    }
    if find != "" {
      PendingTail(total, s - j, src, find, rep, i - j);
    }
    if j > 0 {
      WriteTail(dest, s, src, j);
    }
  }

  /** doFuncReplace. */
  method DoFuncReplace(src: string, find: string, rep: string) returns (res: array<char>)
    ensures fresh(res) && res[..] == Result(src, find, rep)
  {
    var lDst := CountPass(src, find, rep);
    res := new char[lDst];
    if find != "" { PendingStart(src, find, rep); }
    WritePass(src, find, rep, res, Result(src, find, rep));
  }
}
