/** Exactly which files parse, and what lookups then return. */
module IniProofs {
  import opened IniLine
  import opened IniStore

  /** An attribute line together with the section header it stands under. */
  datatype Decl = Decl(section: string, key: string, value: string)

  function Headers(lines: seq<Line>): seq<string> {
    if lines == [] then []
    else
      var last := lines[|lines| - 1];
      Headers(lines[..|lines| - 1]) + (if last.SectionLine? then [last.name] else [])
  }

  /** The most recent section header, or nothing. */
  function Current(lines: seq<Line>): string {
    var h := Headers(lines);
    if h == [] then "" else h[|h| - 1]
  }

  function Decls(lines: seq<Line>): seq<Decl> {
    if lines == [] then []
    else
      var front, last := lines[..|lines| - 1], lines[|lines| - 1];
      Decls(front) + (if last.AttrLine? then [Decl(Current(front), last.key, last.value)] else [])
  }

  // ---------------------------------------------------------------- what a file must satisfy

  /** A header may repeat the one directly before it, and nothing else; only the first may be empty. */
  ghost predicate HeadersFit(h: seq<string>) {
    forall j :: 1 <= j < |h| ==> h[j] != "" && forall i :: 0 <= i < j - 1 ==> h[i] != h[j]
  }

  ghost predicate DeclsFit(d: seq<Decl>) {
    && (forall i :: 0 <= i < |d| ==> d[i].section != "")
    && (forall i, j :: 0 <= i < j < |d| ==> d[i].section != d[j].section || d[i].key != d[j].key)
  }

  ghost predicate FileFits(lines: seq<Line>) {
    (forall i :: 0 <= i < |lines| ==> lines[i] != ErrorLine) && HeadersFit(Headers(lines)) && DeclsFit(Decls(lines))
  }

  // ---------------------------------------------------------------- how list and file correspond

  /** The sections are the headers, in order; a lookup finds exactly what was declared. */
  ghost predicate Reflects(p: Parse, lines: seq<Line>) {
    && p.cur == Current(lines)
    && |p.sections| == |Headers(lines)|
    && (forall i :: 0 <= i < |p.sections| ==> p.sections[i].name == Headers(lines)[i])
    && (forall s, k, v :: GetValue(p.sections, s, k) == Value(v) <==> Decl(s, k, v) in Decls(lines))
  }

  lemma SecIndexAppend(sections: seq<Section>, extra: Section, name: string)
    ensures SecIndex(sections + [extra], name) ==
            if SecIndex(sections, name) < |sections| || extra.name != name then
              if SecIndex(sections, name) < |sections| then SecIndex(sections, name) else |sections| + 1
            else |sections|
  {
    var all := sections + [extra];
    var i, j := SecIndex(sections, name), SecIndex(all, name);
    assert forall m :: 0 <= m < |sections| ==> all[m] == sections[m];
    assert all[|sections|] == extra;
  }

  lemma LookupAfterSection(sections: seq<Section>, name: string, s: string, k: string)
    ensures GetValue(sections + [Section(name, [])], s, k) == GetValue(sections, s, k)
  {
    SecIndexAppend(sections, Section(name, []), s);
  }

  lemma AttrIndexAppend(attrs: seq<Attr>, extra: Attr, key: string)
    ensures AttrValue(attrs + [extra], key) ==
            if AttrValue(attrs, key).Value? then AttrValue(attrs, key)
            else if extra.key == key then Value(extra.value) else NoValue
  {
    var all := attrs + [extra];
    var i, j := AttrIndex(attrs, key), AttrIndex(all, key);
    assert forall m :: 0 <= m < |attrs| ==> all[m] == attrs[m];
    assert all[|attrs|] == extra;
  }

  lemma LookupAfterAttr(sections: seq<Section>, name: string, attr: Attr, s: string, k: string)
    requires SecIndex(sections, name) < |sections| && GetValue(sections, name, attr.key) == NoValue
    ensures GetValue(AddAttrAt(sections, SecIndex(sections, name), attr), s, k) ==
            if s == name && k == attr.key then Value(attr.value) else GetValue(sections, s, k)
  {
    var i := SecIndex(sections, name);
    var all := AddAttrAt(sections, i, attr);
    assert forall m :: 0 <= m < |sections| ==> all[m].name == sections[m].name;
    assert SecIndex(all, s) == SecIndex(sections, s);
    if s == name {
      AttrIndexAppend(sections[i].attrs, attr, k);
    }
  }

  lemma CurrentFound(p: Parse, lines: seq<Line>)
    requires Reflects(p, lines) && p.cur != ""
    ensures SecIndex(p.sections, p.cur) < |p.sections|
  {
    var n := |Headers(lines)|;
    assert p.sections[n - 1].name == Headers(lines)[n - 1];
  }

  // ---------------------------------------------------------------- one more line

  lemma SectionStep(p: Parse, front: seq<Line>, name: string)
    requires p.ret == 0 && Reflects(p, front)
    ensures var p' := ParseLine(p, SectionLine(name));
            p'.ret == 0 ==> Reflects(p', front + [SectionLine(name)])
    ensures HeadersFit(Headers(front)) ==>
              (ParseLine(p, SectionLine(name)).ret == 0 <==> HeadersFit(Headers(front) + [name]))
  {
    var lines := front + [SectionLine(name)];
    assert lines[..|lines| - 1] == front;
    HeaderSeen(p.sections, Headers(front), name);
    if !SeenBefore(p.sections, name) {
      ReflectsAfterSection(p, front, name);
    }
  }

  lemma ReflectsAfterSection(p: Parse, front: seq<Line>, name: string)
    requires Reflects(p, front)
    ensures Reflects(Parse(p.sections + [Section(name, [])], name, 0), front + [SectionLine(name)])
  {
    var lines := front + [SectionLine(name)];
    var sections := p.sections + [Section(name, [])];
    assert lines[..|lines| - 1] == front;
    assert Headers(lines) == Headers(front) + [name] && Decls(lines) == Decls(front);
    forall s, k
      ensures GetValue(sections, s, k) == GetValue(p.sections, s, k)
    {
      LookupAfterSection(p.sections, name, s, k);
    }
  }

  /** The check for an existing section refuses exactly the headers that do not fit. */
  lemma HeaderSeen(sections: seq<Section>, h: seq<string>, name: string)
    requires |sections| == |h| && forall i :: 0 <= i < |h| ==> sections[i].name == h[i]
    ensures HeadersFit(h) ==> (SeenBefore(sections, name) <==> !HeadersFit(h + [name]))
  {
    var h' := h + [name];
    assert h'[|h|] == name && forall i :: 0 <= i < |h| ==> h'[i] == h[i];
    if sections != [] {
      var seen := sections[..|sections| - 1];
      assert forall i :: 0 <= i < |seen| ==> seen[i].name == h[i];
      var i := SecIndex(seen, name);
      if i < |seen| { assert h'[i] == name; }
    }
  }

  lemma AttrStep(p: Parse, front: seq<Line>, key: string, value: string)
    requires p.ret == 0 && Reflects(p, front)
    ensures var p' := ParseLine(p, AttrLine(key, value));
            p'.ret == 0 ==> Reflects(p', front + [AttrLine(key, value)])
    ensures DeclsFit(Decls(front)) ==>
              (ParseLine(p, AttrLine(key, value)).ret == 0 <==>
               DeclsFit(Decls(front) + [Decl(Current(front), key, value)]))
  {
    var lines := front + [AttrLine(key, value)];
    assert lines[..|lines| - 1] == front;
    var d := Decls(front);
    var extra := Decl(p.cur, key, value);
    if p.cur != "" {
      CurrentFound(p, front);
      var i := SecIndex(p.sections, p.cur);
      var found := GetValue(p.sections, p.cur, key);
      if found.Value? {
        assert Decl(p.cur, key, found.value) in d;
        var m :| 0 <= m < |d| && d[m] == Decl(p.cur, key, found.value);
        assert (d + [extra])[m] == d[m] && (d + [extra])[|d|] == extra;
      } else {
        FreshDecl(p, front, key, value);
        var p' := ParseLine(p, AttrLine(key, value));
        forall s, k
          ensures GetValue(p'.sections, s, k) ==
                  if s == p.cur && k == key then Value(value) else GetValue(p.sections, s, k)
        {
          LookupAfterAttr(p.sections, p.cur, Attr(key, value), s, k);
        }
        ReflectsAfterAttr(p, p', front, key, value);
      }
    } else {
      assert (d + [extra])[|d|] == extra;
    }
  }

  lemma FreshDecl(p: Parse, front: seq<Line>, key: string, value: string)
    requires Reflects(p, front) && p.cur != "" && GetValue(p.sections, p.cur, key) == NoValue
    ensures DeclsFit(Decls(front)) ==> DeclsFit(Decls(front) + [Decl(p.cur, key, value)])
  {
    var d := Decls(front);
    forall i | 0 <= i < |d|
      ensures d[i].section != p.cur || d[i].key != key
    {
      assert Decl(d[i].section, d[i].key, d[i].value) in d;
    }
  }

  lemma ReflectsAfterAttr(p: Parse, p': Parse, front: seq<Line>, key: string, value: string)
    requires Reflects(p, front) && GetValue(p.sections, p.cur, key) == NoValue
    requires p'.cur == p.cur && |p'.sections| == |p.sections|
    requires forall i :: 0 <= i < |p.sections| ==> p'.sections[i].name == p.sections[i].name
    requires forall s, k :: GetValue(p'.sections, s, k) ==
               if s == p.cur && k == key then Value(value) else GetValue(p.sections, s, k)
    ensures Reflects(p', front + [AttrLine(key, value)])
  {
    var lines := front + [AttrLine(key, value)];
    assert lines[..|lines| - 1] == front;
    var d, d' := Decls(front), Decls(lines);
    assert d' == d + [Decl(p.cur, key, value)];
    forall s, k, v
      ensures GetValue(p'.sections, s, k) == Value(v) <==> Decl(s, k, v) in d'
    {
      if s == p.cur && k == key {
        assert Decl(s, k, v) !in d;
      }
    }
  }

  // ---------------------------------------------------------------- main results

  lemma {:induction false} ParseReflects(lines: seq<Line>)
    ensures ParseLines(lines).ret == 0 <==> FileFits(lines)
    ensures ParseLines(lines).ret == 0 ==> Reflects(ParseLines(lines), lines)
    decreases |lines|
  {
    if lines != [] {
      var front, last := lines[..|lines| - 1], lines[|lines| - 1];
      ParseReflects(front);
      assert lines == front + [last];
      FitsFront(lines);
      var p := ParseLines(front);
      if p.ret == 0 {
        match last
        case SectionLine(name) => SectionStep(p, front, name);
        case AttrLine(key, value) => AttrStep(p, front, key, value);
        case _ =>
      }
    }
  }

  lemma FitsFront(lines: seq<Line>)
    requires lines != []
    ensures var front, last := lines[..|lines| - 1], lines[|lines| - 1];
            FileFits(lines) <==> FileFits(front) && last != ErrorLine && HeadersFit(Headers(lines)) && DeclsFit(Decls(lines))
  {
    var front := lines[..|lines| - 1];
    var h, d := Headers(front), Decls(front);
    assert forall i :: 0 <= i < |h| ==> Headers(lines)[i] == h[i];
    assert forall i :: 0 <= i < |d| ==> Decls(lines)[i] == d[i];
    assert forall i :: 0 <= i < |front| ==> lines[i] == front[i];
  }

  /** A file parses exactly when no line is malformed, every attribute stands under a non-empty
      header, no (section, key) pair is declared twice, and headers repeat only directly. */
  lemma ParsesExactly(lines: seq<Line>)
    ensures ParseLines(lines).ret == 0 <==> FileFits(lines)
  {
    ParseReflects(lines);
  }

  /** Otherwise parsing stops at the first line with which the file does not fit any more; the kind
      of that line tells the error, and the list is that of the lines before it. */
  lemma StopsAtFirstMisfit(lines: seq<Line>, n: nat)
    requires n < |lines| && FileFits(lines[..n]) && !FileFits(lines[..n + 1])
    ensures ParseLines(lines).ret ==
            match lines[n]
            case ErrorLine => -4
            case SectionLine(_) => -1
            case AttrLine(_, _) => if Current(lines[..n]) == "" then -2 else -3
            case _ => 0
    ensures !lines[n].CommentLine? && !lines[n].SpaceLine?
    ensures ParseLines(lines).sections == ParseLines(lines[..n]).sections && Reflects(ParseLines(lines[..n]), lines[..n])
  {
    var front, line := lines[..n], lines[n];
    assert lines[..n + 1][..n] == front && lines[..n + 1][n] == line;
    ParseReflects(front);
    ParseReflects(lines[..n + 1]);
    assert ParseLines(lines[..n + 1]) == ParseLine(ParseLines(front), line);
    StoppedAt(lines, n + 1);
  }

  /** After a successful parse a lookup returns v exactly when there is a line k = v whose most
      recent header is s, and then there is exactly one. */
  lemma LookupReturnsDeclared(lines: seq<Line>, s: string, k: string, v: string)
    requires ParseLines(lines).ret == 0
    ensures GetValue(ParseLines(lines).sections, s, k) == Value(v) <==>
            exists i :: 0 <= i < |Decls(lines)| && Decls(lines)[i] == Decl(s, k, v)
                        && forall j :: 0 <= j < |Decls(lines)| && j != i ==>
                             Decls(lines)[j].section != s || Decls(lines)[j].key != k
  {
    ParseReflects(lines);
    var d := Decls(lines);
    if Decl(s, k, v) in d {
      var i :| 0 <= i < |d| && d[i] == Decl(s, k, v);
      assert forall j :: 0 <= j < |d| && j != i ==> d[j].section != s || d[j].key != k;
    }
  }

  // ---------------------------------------------------------------- the shape of the list

  /** A name occurs at most twice, two copies are neighbours and the second one is empty; keys
      are unique within a section. */
  ghost predicate ListShape(sections: seq<Section>) {
    && (forall i, j :: 0 <= i < j < |sections| && sections[i].name == sections[j].name ==>
          j == i + 1 && sections[j].attrs == [])
    && (forall i :: 0 <= i < |sections| ==> UniqueKeys(sections[i].attrs))
  }

  ghost predicate UniqueKeys(attrs: seq<Attr>) {
    forall a, b :: 0 <= a < b < |attrs| ==> attrs[a].key != attrs[b].key
  }

  lemma ShapeStep(p: Parse, line: Line)
    requires ListShape(p.sections)
    ensures ListShape(ParseLine(p, line).sections)
  {
    var p' := ParseLine(p, line);
    if p'.sections != p.sections {
      match line
      case SectionLine(name) =>
        if p.sections != [] {
          var seen := p.sections[..|p.sections| - 1];
          assert forall i :: 0 <= i < |seen| ==> seen[i] == p.sections[i];
        }
      case AttrLine(key, value) =>
        var i := SecIndex(p.sections, p.cur);
        var attrs := p.sections[i].attrs;
        assert AttrIndex(attrs, key) == |attrs|;
        assert forall j :: 0 <= j < |p.sections| && j != i ==> p'.sections[j] == p.sections[j];
        assert p'.sections[i] == Section(p.sections[i].name, attrs + [Attr(key, value)]);
    }
  }

  /** Whatever the lines, whether the parse succeeds or stops. */
  lemma {:induction false} ListAlwaysShaped(lines: seq<Line>)
    ensures ListShape(ParseLines(lines).sections)
    decreases |lines|
  {
    if lines != [] {
      ListAlwaysShaped(lines[..|lines| - 1]);
      ShapeStep(ParseLines(lines[..|lines| - 1]), lines[|lines| - 1]);
    }
  }
}
