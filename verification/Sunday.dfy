/**
 Substring search by Sunday's algorithm (moString.cpp): on a mismatch the character just behind
 the window decides, by a table, how far the window moves.
 */
module Sunday {

  const NEXTTABLE_LEN: nat := 256

  type Ascii = c: int | 0 <= c < 128

  ghost predicate MatchAt(src: seq<Ascii>, pat: seq<Ascii>, i: int) {
    0 <= i && i + |pat| <= |src| && forall m :: 0 <= m < |pat| ==> src[i + m] == pat[m]
  }

  /** The table entry for `c`: the distance from its last occurrence in the pattern to the
      place just behind the pattern, or one more than the pattern's length. */
  ghost predicate IsShift(pat: seq<Ascii>, c: int, shift: int) {
    && 1 <= shift <= |pat| + 1
    && (shift <= |pat| ==> pat[|pat| - shift] == c)
    && (forall j :: |pat| - shift < j < |pat| && j >= 0 ==> pat[j] != c)
  }

  ghost predicate IsNextTable(pat: seq<Ascii>, next: seq<int>) {
    |next| == NEXTTABLE_LEN && forall c :: 0 <= c < NEXTTABLE_LEN ==> IsShift(pat, c, next[c])
  }

  /** Filling the table; entries are chars, so the pattern must be shorter than 127. */
  method SundayGenNext(next: array<int>, pat: seq<Ascii>)
    requires next.Length == NEXTTABLE_LEN && |pat| <= 126
    modifies next
    ensures IsNextTable(pat, next[..])
    ensures forall c :: 0 <= c < NEXTTABLE_LEN ==> next[c] <= 127
  {
    var i := 0;
    while i < NEXTTABLE_LEN
      invariant 0 <= i <= NEXTTABLE_LEN
      invariant forall c :: 0 <= c < i ==> next[c] == |pat| + 1
    {
      next[i] := |pat| + 1;
      i := i + 1;
    }
    i := 0;
    while i < |pat|
      invariant 0 <= i <= |pat|
      invariant forall c :: 0 <= c < NEXTTABLE_LEN ==> |pat| - i < next[c] <= |pat| + 1
      invariant forall c :: 0 <= c < NEXTTABLE_LEN && next[c] <= |pat| ==> pat[|pat| - next[c]] == c
      invariant forall c, j :: 0 <= c < NEXTTABLE_LEN && |pat| - next[c] < j < i && j >= 0 ==> pat[j] != c
    {
      next[pat[i]] := |pat| - i;
      i := i + 1;
    }
  }

  /** Nothing can match between the window and where the table moves it. */
  lemma ShiftSkipsNoMatch(src: seq<Ascii>, pat: seq<Ascii>, i: nat, shift: int, k: int)
    requires i + |pat| < |src| && IsShift(pat, src[i + |pat|], shift)
    requires i < k < i + shift
    ensures !MatchAt(src, pat, k)
  {
    var j := i + |pat| - k;
    assert pat[j] != src[k + j];
  }

  /** The search.  `mem` is the memory from the start of the source on: in the last window the
      compare loop of the code goes on after a mismatch, with the window one further each time,
      and so reads beyond the source; what it finds there has no influence. */
  method SundaySearch(mem: seq<Ascii>, srcLen: nat, pat: seq<Ascii>, next: array<int>) returns (ret: int)
    requires srcLen + |pat| <= |mem|
    requires IsNextTable(pat, next[..])
    ensures srcLen < |pat| ==> ret == -2
    ensures srcLen >= |pat| && (|pat| == 0 || srcLen == 0) ==> ret == -3
    ensures srcLen >= |pat| > 0 && ret >= 0 ==>
              MatchAt(mem[..srcLen], pat, ret) && forall k :: 0 <= k < ret ==> !MatchAt(mem[..srcLen], pat, k)
    ensures srcLen >= |pat| > 0 && ret < 0 ==> ret == -4 && forall k :: !MatchAt(mem[..srcLen], pat, k)
  {
    if srcLen < |pat| {
      return -2;
    }
    if |pat| == 0 || srcLen == 0 {
      return -3;
    }
    ghost var src := mem[..srcLen];
    var i := 0;
    while i <= srcLen - |pat|
      invariant 0 <= i
      invariant forall k :: 0 <= k < i ==> !MatchAt(src, pat, k)
      decreases srcLen - i
    {
      ghost var i0 := i;
      var isMatched := true;
      var j := 0;
      while j < |pat|
        invariant 0 <= j <= |pat|
        invariant isMatched ==> i == i0 && forall m :: 0 <= m < j ==> mem[i + m] == pat[m]
        invariant !isMatched ==> !MatchAt(src, pat, i0) && i0 < i <= i0 + j && i0 + |pat| == srcLen
      {
        if mem[i + j] != pat[j] {
          assert isMatched ==> src[i0 + j] != pat[j];
          isMatched := false;
          if i + |pat| < srcLen {
            var shift := next[mem[i + |pat|]];
            forall k | i < k < i + shift
              ensures !MatchAt(src, pat, k)
            {
              ShiftSkipsNoMatch(src, pat, i, shift, k);
            }
            i := i + shift;
            break;
          } else {
            i := i + 1;
          }
        }
        j := j + 1;
      }
      if isMatched {
        assert MatchAt(src, pat, i);
        return i;
      }
    }
    return -4;
  }

  /** Search with a freshly built table. */
  method SubString(mem: seq<Ascii>, srcLen: nat, pat: seq<Ascii>) returns (ret: int)
    requires srcLen + |pat| <= |mem| && |pat| <= 126
    ensures |pat| > 0 && ret >= 0 ==>
              MatchAt(mem[..srcLen], pat, ret) && forall k :: 0 <= k < ret ==> !MatchAt(mem[..srcLen], pat, k)
    ensures |pat| > 0 && ret < 0 ==> forall k :: !MatchAt(mem[..srcLen], pat, k)
    ensures |pat| == 0 ==> ret == -3
  {
    var nextTable := new int[NEXTTABLE_LEN];
    SundayGenNext(nextTable, pat);
    ret := SundaySearch(mem, srcLen, pat, nextTable);
  }
}
