/** Which lines mean what: classification inverts formatting, and only formatted lines classify. */
module IniFormat {
  import opened IniLine

  /** Nothing, or a comment. */
  predicate IsTail(tail: string) { tail == "" || tail[0] == ';' }

  ghost predicate ValidKey(k: string) {
    Trimmed(k) && k[0] != '[' && ';' !in k && '=' !in k && |k| < NAME_MAX_LEN
  }

  ghost predicate ValidValue(v: string) {
    Trimmed(v) && ';' !in v && '=' !in v && |v| < NAME_MAX_LEN
  }

  ghost predicate ValidName(s: string) { ';' !in s && |s| < NAME_MAX_LEN }

  // ---------------------------------------------------------------- cutting off blanks and comment

  /** The counting part of a line is what stands between leading blanks and the comment. */
  lemma PartOf(a: string, body: string, tail: string)
    requires AllBlank(a) && body != "" && !IsBlank(body[0]) && ';' !in body && IsTail(tail)
    ensures var line := a + body + tail;
            SkipBlanks(line) == |a| < |line| && line[|a|] == body[0]
            && Find(line, ';') == |a| + |body| && ValidPart(line, |a|) == body
  {
    var line := a + body + tail;
    var i, f := SkipBlanks(line), Find(line, ';');
    assert forall k :: 0 <= k < |a| ==> line[k] == a[k];
    assert forall k :: |a| <= k < |a| + |body| ==> line[k] == body[k - |a|];
    assert line[|a|] == body[0];
    assert i == |a|;
    if tail != "" { assert line[|a| + |body|] == ';'; }
    assert f == |a| + |body|;
  }

  /** Every line that does not only hold blanks falls into such parts. */
  lemma {:induction false} PartsOf(line: string) returns (a: string, body: string, tail: string)
    requires SkipBlanks(line) < |line| && line[SkipBlanks(line)] != ';'
    ensures line == a + body + tail && AllBlank(a) && IsTail(tail)
    ensures body != "" && ';' !in body && body[0] == line[SkipBlanks(line)] && !IsBlank(body[0])
    ensures SkipBlanks(line) <= Find(line, ';') && ValidPart(line, SkipBlanks(line)) == body
  {
    SemicolonAfterBlanks(line);
    var i, f := SkipBlanks(line), Find(line, ';');
    a, body, tail := line[..i], line[i..f], line[f..];
    assert line == a + body + tail;
    assert forall m :: 0 <= m < |body| ==> body[m] == line[i + m];
  }

  // ---------------------------------------------------------------- attributes

  /** The only equal sign is found from both ends, and both sides are trimmed. */
  lemma EqualSign(left: string, right: string)
    requires '=' !in left && '=' !in right
    ensures var body := left + "=" + right;
            && Find(body, '=') == FindLast(body, '=') == |left| < |body|
            && body[..|left|] == left && body[|left| + 1..] == right
  {
    var body := left + "=" + right;
    assert body[|left|] == '=';
    assert forall m :: 0 <= m < |left| ==> body[m] == left[m];
    assert forall m :: |left| < m < |body| ==> body[m] == right[m - |left| - 1];
  }

  lemma AttrPartParses(left: string, right: string)
    requires '=' !in left && '=' !in right && ValidKey(Trim(left)) && ValidValue(Trim(right))
    ensures AttrOf(left + "=" + right) == AttrLine(Trim(left), Trim(right))
  {
    EqualSign(left, right);
  }

  lemma SplitAtEqual(part: string) returns (left: string, right: string)
    requires AttrOf(part).AttrLine?
    ensures part == left + "=" + right && '=' !in left && '=' !in right
    ensures AttrOf(part) == AttrLine(Trim(left), Trim(right))
  {
    var e := Find(part, '=');
    left, right := part[..e], part[e + 1..];
    assert forall m :: 0 <= m < |right| ==> right[m] == part[e + 1 + m];
  }

  /** Any blanks around key and value, and any comment behind, are allowed for. */
  lemma AttrTextParses(a: string, k: string, b: string, c: string, v: string, d: string, tail: string)
    requires AllBlank(a) && AllBlank(b) && AllBlank(c) && AllBlank(d) && IsTail(tail)
    requires ValidKey(k) && ValidValue(v)
    ensures Classify(a + (k + b) + "=" + (c + v + d) + tail) == AttrLine(k, v)
  {
    var left, right := k + b, c + v + d;
    var body := left + "=" + right;
    assert a + left + "=" + right + tail == a + body + tail;
    assert body[0] == k[0];
    PartOf(a, body, tail);
    assert "" + k + b == left;
    TrimExactly("", k, b);
    TrimExactly(c, v, d);
    AttrPartParses(left, right);
  }

  /** Only such lines are attribute lines. */
  lemma AttrLineIsText(line: string, k: string, v: string)
      returns (a: string, b: string, c: string, d: string, tail: string)
    requires Classify(line) == AttrLine(k, v)
    ensures AllBlank(a) && AllBlank(b) && AllBlank(c) && AllBlank(d) && IsTail(tail)
    ensures ValidKey(k) && ValidValue(v)
    ensures line == a + (k + b) + "=" + (c + v + d) + tail
  {
    var body;
    a, body, tail := PartsOf(line);
    b, c, d := AttrPartIsText(body, k, v);
    Regroup(a, k + b, c + v + d, tail);
  }

  lemma Regroup(a: string, left: string, right: string, tail: string)
    ensures a + (left + "=" + right) + tail == a + left + "=" + right + tail
  {
  }

  lemma PartsLack(x: string, y: string, c: char)
    requires c !in x + y
    ensures c !in x && c !in y
  {
    assert forall m :: 0 <= m < |x| ==> x[m] == (x + y)[m];
    assert forall m :: 0 <= m < |y| ==> y[m] == (x + y)[|x| + m];
  }

  lemma AttrPartIsText(part: string, k: string, v: string) returns (b: string, c: string, d: string)
    requires AttrOf(part) == AttrLine(k, v)
    requires part != "" && !IsBlank(part[0]) && part[0] != '[' && ';' !in part
    ensures AllBlank(b) && AllBlank(c) && AllBlank(d) && ValidKey(k) && ValidValue(v)
    ensures part == (k + b) + "=" + (c + v + d)
  {
    var left, right := SplitAtEqual(part);
    assert left != "" && part[0] == left[0];
    b := KeySide(left, k);
    c, d := ValueSide(right, v);
    PartsLack(left + "=", right, ';');
    PartsLack(left, "=", ';');
    PartsLack(k, b, ';');
    PartsLack(k, b, '=');
    PartsLack(c + v, d, ';');
    PartsLack(c, v, ';');
    PartsLack(c + v, d, '=');
    PartsLack(c, v, '=');
  }

  lemma KeySide(left: string, k: string) returns (b: string)
    requires k == Trim(left) && k != "" && !IsBlank(left[0])
    ensures left == k + b && AllBlank(b) && Trimmed(k)
  {
    var i, j := TrimParts(left);
    assert i == 0;
    b := left[j..];
  }

  lemma ValueSide(right: string, v: string) returns (c: string, d: string)
    requires v == Trim(right) && v != ""
    ensures right == c + v + d && AllBlank(c) && AllBlank(d) && Trimmed(v)
  {
    var i, j := TrimParts(right);
    c, d := right[..i], right[j..];
  }

  // ---------------------------------------------------------------- sections

  lemma SectionPartParses(s: string, b: string)
    requires AllBlank(b) && ValidName(s)
    ensures SectionOf("[" + s + "]" + b) == SectionLine(s)
  {
    var part := "[" + s + "]" + b;
    assert part[|s| + 1] == ']' && part[|s| + 2..] == b && part[1..|s| + 1] == s;
    assert forall m :: |s| + 1 < m < |part| ==> part[m] == b[m - |s| - 2];
    assert FindLast(part, ']') == |s| + 1;
  }

  /** A section name may contain anything but a semicolon, closing brackets included. */
  lemma SectionTextParses(a: string, s: string, b: string, tail: string)
    requires AllBlank(a) && AllBlank(b) && IsTail(tail) && ValidName(s)
    ensures Classify(a + ("[" + s + "]" + b) + tail) == SectionLine(s)
  {
    var part := "[" + s + "]" + b;
    assert ';' !in part;
    PartOf(a, part, tail);
    SectionPartParses(s, b);
  }

  lemma SectionLineIsText(line: string, s: string) returns (a: string, b: string, tail: string)
    requires Classify(line) == SectionLine(s)
    ensures AllBlank(a) && AllBlank(b) && IsTail(tail) && ValidName(s)
    ensures line == a + ("[" + s + "]" + b) + tail
  {
    var body;
    a, body, tail := PartsOf(line);
    b := SectionPartIsText(body, s);
  }

  lemma SectionPartIsText(part: string, s: string) returns (b: string)
    requires part != "" && part[0] == '[' && SectionOf(part) == SectionLine(s) && ';' !in part
    ensures part == "[" + s + "]" + b && AllBlank(b) && ValidName(s)
  {
    var r := FindLast(part, ']');
    b := part[r + 1..];
    assert forall x :: 0 <= x < |s| ==> s[x] == part[x + 1];
  }

  // ---------------------------------------------------------------- the rest

  /** A line is empty exactly when it holds blanks only, and a comment exactly when its first
      other character is a semicolon. */
  lemma SpaceAndComment(line: string)
    ensures Classify(line) == SpaceLine <==> AllBlank(line)
    ensures Classify(line) == CommentLine <==>
              exists i :: 0 <= i < |line| && line[i] == ';' && forall j :: 0 <= j < i ==> IsBlank(line[j])
  {
    var i := SkipBlanks(line);
    SemicolonAfterBlanks(line);
    if m :| 0 <= m < |line| && line[m] == ';' && forall j :: 0 <= j < m ==> IsBlank(line[j]) {
      assert m == i;
    }
  }
}
