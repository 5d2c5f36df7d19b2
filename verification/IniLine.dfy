/**
 Classification of one line of an INI file (iniParser.c): comments, sections, attributes.
 A line is a string without line end and without NUL, short enough for the line buffers.
 */
module IniLine {

  const NAME_MAX_LEN: nat := 128
  const MAX_LINE_LEN: nat := 512

  datatype Line =
    | ErrorLine
    | SectionLine(name: string)
    | AttrLine(key: string, value: string)
    | CommentLine
    | SpaceLine

  predicate IsBlank(c: char) { c == '\t' || c == ' ' }

  predicate AllBlank(s: string) { forall i :: 0 <= i < |s| ==> IsBlank(s[i]) }

  // ---------------------------------------------------------------- the C library's searches

  /** `strchr`: the first position of `c`, or the length. */
  function Find(s: string, c: char): (i: nat)
    ensures i <= |s| && (i < |s| ==> s[i] == c)
    ensures forall j :: 0 <= j < i ==> s[j] != c
  {
    if s == "" || s[0] == c then 0 else 1 + Find(s[1..], c)
  }

  /** `strrchr`: the last position of `c`, or -1. */
  function FindLast(s: string, c: char): (i: int)
    ensures -1 <= i < |s| && (i >= 0 ==> s[i] == c)
    ensures forall j :: i < j < |s| ==> s[j] != c
  {
    if s == "" then -1
    else if s[|s| - 1] == c then |s| - 1
    else FindLast(s[..|s| - 1], c)
  }

  // ---------------------------------------------------------------- blanks

  /** Position of the first character that is not blank, or the length. */
  function SkipBlanks(s: string): (i: nat)
    ensures i <= |s| && (forall j :: 0 <= j < i ==> IsBlank(s[j])) && (i < |s| ==> !IsBlank(s[i]))
  {
    if s == "" || !IsBlank(s[0]) then 0 else 1 + SkipBlanks(s[1..])
  }

  /** One past the position of the last character that is not blank, or 0. */
  function LastValid(s: string): (j: nat)
    ensures j <= |s| && (forall i :: j <= i < |s| ==> IsBlank(s[i])) && (j > 0 ==> !IsBlank(s[j - 1]))
  {
    if s == "" || !IsBlank(s[|s| - 1]) then |s| else LastValid(s[..|s| - 1])
  }

  lemma BlankBounds(s: string)
    ensures SkipBlanks(s) < |s| ==> SkipBlanks(s) < LastValid(s)
    ensures SkipBlanks(s) == |s| <==> LastValid(s) == 0 && AllBlank(s)
  {
  }

  /** `s` without the blanks around it. */
  function Trim(s: string): string {
    BlankBounds(s);
    if SkipBlanks(s) == |s| then "" else s[SkipBlanks(s)..LastValid(s)]
  }

  ghost predicate Trimmed(s: string) {
    s != "" && !IsBlank(s[0]) && !IsBlank(s[|s| - 1])
  }

  /** Trimming is characterised by what it takes away. */
  lemma TrimExactly(a: string, t: string, b: string)
    requires AllBlank(a) && AllBlank(b) && Trimmed(t)
    ensures Trim(a + t + b) == t
  {
    var s := a + t + b;
    var i, j := SkipBlanks(s), LastValid(s);
    assert s[|a|] == t[0] && s[|a| + |t| - 1] == t[|t| - 1];
    assert forall k :: 0 <= k < |a| ==> s[k] == a[k];
    assert forall k :: |a| + |t| <= k < |s| ==> s[k] == b[k - |a| - |t|];
    assert i == |a| && j == |a| + |t|;
    BlankBounds(s);
  }

  lemma TrimParts(s: string) returns (i: nat, j: nat)
    requires Trim(s) != ""
    ensures i < j <= |s| && Trim(s) == s[i..j] && Trimmed(Trim(s))
    ensures (forall m :: 0 <= m < i ==> IsBlank(s[m])) && forall m :: j <= m < |s| ==> IsBlank(s[m])
  {
    BlankBounds(s);
    i, j := SkipBlanks(s), LastValid(s);
  }

  /** The two trimming loops; -4 when nothing is left. */
  method TrimLoops(s: string) returns (ret: int, t: string)
    ensures ret == (if Trim(s) == "" then -4 else 0) && t == Trim(s)
  {
    BlankBounds(s);
    var i := 0;
    while i < |s| && IsBlank(s[i])
      invariant 0 <= i <= SkipBlanks(s)
    {
      i := i + 1;
    }
    assert i == SkipBlanks(s);
    var j := |s| - 1;
    while j > 0 && IsBlank(s[j])
      invariant -1 <= j < |s| && (s != "" ==> j >= 0)
      invariant LastValid(s) <= j + 1 || (LastValid(s) == 0 && j <= 0)
    {
      j := j - 1;
    }
    if j < i {
      return -4, "";
    }
    assert LastValid(s) == j + 1;
    return 0, s[i..j + 1];
  }

  // ---------------------------------------------------------------- classification

  /** The part of the line that counts: from `i` to the first semicolon. */
  function ValidPart(line: string, i: nat): string
    requires i <= Find(line, ';')
  {
    line[i..Find(line, ';')]
  }

  function SectionOf(part: string): Line
    requires part != "" && part[0] == '['
  {
    var r := FindLast(part, ']');
    if r < 0 then ErrorLine
    else
      assert r != 0;
      if !AllBlank(part[r + 1..]) || r - 1 >= NAME_MAX_LEN then ErrorLine else SectionLine(part[1..r])
  }

  function AttrOf(part: string): Line {
    var e := Find(part, '=');
    if e == |part| || FindLast(part, '=') != e then ErrorLine
    else
      var key, value := Trim(part[..e]), Trim(part[e + 1..]);
      if key == "" || value == "" || |key| >= NAME_MAX_LEN || |value| >= NAME_MAX_LEN then ErrorLine
      else AttrLine(key, value)
  }

  lemma SemicolonAfterBlanks(line: string)
    ensures SkipBlanks(line) <= Find(line, ';')
  {
    var i, f := SkipBlanks(line), Find(line, ';');
    assert f < |line| ==> !IsBlank(line[f]);
  }

  function Classify(line: string): Line {
    var i := SkipBlanks(line);
    SemicolonAfterBlanks(line);
    if i == |line| then SpaceLine
    else if line[i] == ';' then CommentLine
    else if line[i] == '[' then SectionOf(ValidPart(line, i))
    else AttrOf(ValidPart(line, i))
  }

  /** The code of `GetLineType` and its helpers. */
  method GetLineType(line: string) returns (r: Line)
    requires |line| < MAX_LINE_LEN
    ensures r == Classify(line)
  {
    SemicolonAfterBlanks(line);
    var i := 0;
    while i < |line| && IsBlank(line[i])
      invariant 0 <= i <= SkipBlanks(line)
    {
      i := i + 1;
    }
    assert i == SkipBlanks(line);
    if i == |line| {
      return SpaceLine;
    }
    if line[i] == ';' {
      return CommentLine;
    }
    var part := line[i..Find(line, ';')];
    if line[i] == '[' {
      r := GetSectionNameFromLine(part);
    } else {
      r := GetAttrFromLine(part);
    }
  }

  method GetSectionNameFromLine(part: string) returns (r: Line)
    requires part != "" && part[0] == '['
    ensures r == SectionOf(part)
  {
    var last := FindLast(part, ']');
    if last < 0 {
      return ErrorLine;
    }
    var i := 1;
    while last + i < |part|
      invariant 1 <= i <= |part| - last
      invariant forall j :: last < j < last + i ==> IsBlank(part[j])
    {
      if !IsBlank(part[last + i]) {
        assert !IsBlank(part[last + 1..][i - 1]);
        return ErrorLine;
      }
      i := i + 1;
    }
    assert AllBlank(part[last + 1..]);
    if last - 1 >= NAME_MAX_LEN {
      return ErrorLine;
    }
    return SectionLine(part[1..last]);
  }

  method GetAttrFromLine(part: string) returns (r: Line)
    ensures r == AttrOf(part)
  {
    var first := Find(part, '=');
    if first == |part| {
      return ErrorLine;
    }
    if first != FindLast(part, '=') {
      return ErrorLine;
    }
    var ret, key := TrimLoops(part[..first]);
    if ret < 0 {
      return ErrorLine;
    }
    var ret2, value := TrimLoops(part[first + 1..]);
    if ret2 < 0 {
      return ErrorLine;
    }
    if |key| >= NAME_MAX_LEN || |value| >= NAME_MAX_LEN {
      return ErrorLine;
    }
    return AttrLine(key, value);
  }
}
