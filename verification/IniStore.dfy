/**
 The section list of the INI parser: filling it line by line, and looking values up.
 The list is kept as the code keeps it: the duplicate check for sections starts at the head
 node, whose name is empty, and does not look at the last node.
 */
module IniStore {
  import opened IniLine

  datatype Attr = Attr(key: string, value: string)
  datatype Section = Section(name: string, attrs: seq<Attr>)
  datatype Value = NoValue | Value(value: string)

  /** How far parsing has come: the list, the current section, and the first error. */
  datatype Parse = Parse(sections: seq<Section>, cur: string, ret: int)

  const START := Parse([], "", 0)

  // ---------------------------------------------------------------- searching

  function SecIndex(sections: seq<Section>, name: string): (i: nat)
    ensures i <= |sections| && (i < |sections| ==> sections[i].name == name)
    ensures forall j :: 0 <= j < i ==> sections[j].name != name
  {
    if sections == [] || sections[0].name == name then 0 else 1 + SecIndex(sections[1..], name)
  }

  function AttrIndex(attrs: seq<Attr>, key: string): (i: nat)
    ensures i <= |attrs| && (i < |attrs| ==> attrs[i].key == key)
    ensures forall j :: 0 <= j < i ==> attrs[j].key != key
  {
    if attrs == [] || attrs[0].key == key then 0 else 1 + AttrIndex(attrs[1..], key)
  }

  function AttrValue(attrs: seq<Attr>, key: string): Value {
    var i := AttrIndex(attrs, key);
    if i < |attrs| then Value(attrs[i].value) else NoValue
  }

  /** What a lookup finds: the first attribute with the key in the first section with the name. */
  function GetValue(sections: seq<Section>, name: string, key: string): Value {
    var i := SecIndex(sections, name);
    if i < |sections| then AttrValue(sections[i].attrs, key) else NoValue
  }

  // ---------------------------------------------------------------- adding

  /** What the check for an existing section sees. */
  predicate SeenBefore(sections: seq<Section>, name: string) {
    sections != [] && (name == "" || SecIndex(sections[..|sections| - 1], name) < |sections| - 1)
  }

  function AddAttrAt(sections: seq<Section>, i: nat, attr: Attr): seq<Section>
    requires i < |sections|
  {
    sections[i := sections[i].(attrs := sections[i].attrs + [attr])]
  }

  /** One line; nothing is done any more after an error. */
  function ParseLine(p: Parse, line: Line): Parse {
    if p.ret != 0 then p
    else match line
      case SectionLine(name) =>
        if SeenBefore(p.sections, name) then p.(ret := -1)
        else Parse(p.sections + [Section(name, [])], name, 0)
      case AttrLine(key, value) =>
        if p.cur == "" then p.(ret := -2)
        else
          var i := SecIndex(p.sections, p.cur);
          if i == |p.sections| || AttrValue(p.sections[i].attrs, key).Value? then p.(ret := -3)
          else p.(sections := AddAttrAt(p.sections, i, Attr(key, value)))
      case ErrorLine => p.(ret := -4)
      case CommentLine => p
      case SpaceLine => p
  }

  function ParseLines(lines: seq<Line>): Parse {
    if lines == [] then START else ParseLine(ParseLines(lines[..|lines| - 1]), lines[|lines| - 1])
  }

  // ---------------------------------------------------------------- the list object

  class SectionList {
    var sections: seq<Section>  // behind the head node

    constructor ()
      ensures sections == []
    {
      sections := [];
    }

    /** Append a section, or -3. */
    method AddSecInfoNode(name: string) returns (ret: int)
      modifies this
      ensures ret == if SeenBefore(old(sections), name) then -3 else 0
      ensures ret == -3 <==>
                old(sections) != [] &&
                (name == "" || exists i :: 0 <= i < |old(sections)| - 1 && old(sections)[i].name == name)
      ensures sections == if ret == 0 then old(sections) + [Section(name, [])] else old(sections)
    {
      // position -1 is the head node
      var last := -1;
      while last + 1 < |sections|
        invariant -1 <= last < |sections| || (last == -1 && sections == [])
        invariant last >= 0 ==> name != ""
        invariant forall j :: 0 <= j < last ==> sections[j].name != name
        decreases |sections| - last
      {
        if (if last < 0 then "" else sections[last].name) == name {
          assert last >= 0 ==> sections[..|sections| - 1][last].name == name;
          return -3;
        }
        last := last + 1;
      }
      if sections != [] {
        ghost var front := sections[..|sections| - 1];
        assert forall j :: 0 <= j < |front| ==> front[j].name != name;
      }
      sections := sections + [Section(name, [])];
      return 0;
    }

    /** Append an attribute to the section of this name: -3 when there is none, -4 when the
        section has the key already. */
    method AddAttrInfoNode(attr: Attr, name: string) returns (ret: int)
      modifies this
      ensures var i := SecIndex(old(sections), name);
              if i == |old(sections)| then ret == -3 && sections == old(sections)
              else if AttrValue(old(sections)[i].attrs, attr.key).Value? then ret == -4 && sections == old(sections)
              else ret == 0 && sections == AddAttrAt(old(sections), i, attr)
      ensures var i := SecIndex(old(sections), name);
              ret == 0 ==> i < |old(sections)| &&
                           sections == old(sections)[i := Section(name, old(sections)[i].attrs + [attr])]
      ensures var i := SecIndex(old(sections), name);
              ret == -4 <==> i < |old(sections)| &&
                             exists j :: 0 <= j < |old(sections)[i].attrs| && old(sections)[i].attrs[j].key == attr.key
    {
      var i := 0;
      while i < |sections| && sections[i].name != name
        invariant 0 <= i <= SecIndex(sections, name)
      {
        i := i + 1;
      }
      if i == |sections| {
        return -3;
      }
      var j := 0;
      while j < |sections[i].attrs| && sections[i].attrs[j].key != attr.key
        invariant 0 <= j <= AttrIndex(sections[i].attrs, attr.key)
      {
        j := j + 1;
      }
      if j < |sections[i].attrs| {
        return -4;
      }
      sections := AddAttrAt(sections, i, attr);
      return 0;
    }

    /** Read all lines, stopping at the first error. */
    method GetSectionList(lines: seq<string>) returns (ret: int)
      requires sections == []
      requires forall i :: 0 <= i < |lines| ==> |lines[i]| < MAX_LINE_LEN
      modifies this
      ensures var p := ParseLines(ClassifyAll(lines)); ret == p.ret && sections == p.sections
    {
      ghost var all := ClassifyAll(lines);
      var curSectionName := "";
      ret := 0;
      var n := 0;
      while n < |lines| && ret == 0
        invariant 0 <= n <= |lines|
        invariant ParseLines(all[..n]) == Parse(sections, curSectionName, ret)
        decreases |lines| - n
      {
        var line := GetLineType(lines[n]);
        assert all[..n + 1][..n] == all[..n] && all[..n + 1][n] == line;
        match line {
        case SectionLine(name) =>
          ret := AddSecInfoNode(name);
          if ret != 0 {
            ret := -1;
          } else {
            curSectionName := name;
          }
        case AttrLine(key, value) =>
          if curSectionName == "" {
            ret := -2;
          } else {
            ret := AddAttrInfoNode(Attr(key, value), curSectionName);
            if ret != 0 {
              ret := -3;
            }
          }
        case ErrorLine => ret := -4;
        case CommentLine =>
        case SpaceLine =>
        }
        n := n + 1;
      }
      StoppedAt(all, n);
      assert all[..|all|] == all;
    }

    method GetAttrValue(name: string, key: string) returns (ret: int, value: string)
      ensures ret == 0 <==> GetValue(sections, name, key).Value?
      ensures ret == 0 ==> GetValue(sections, name, key) == Value(value)
      ensures ret == -3 <==> SecIndex(sections, name) == |sections|
      ensures var i := SecIndex(sections, name);
              && (ret == 0 <==> i < |sections| && AttrIndex(sections[i].attrs, key) < |sections[i].attrs|)
              && (ret == 0 ==> value == sections[i].attrs[AttrIndex(sections[i].attrs, key)].value)
      ensures ret in {0, -3, -4}
    {
      var i := 0;
      while i < |sections| && sections[i].name != name
        invariant 0 <= i <= SecIndex(sections, name)
      {
        i := i + 1;
      }
      if i == |sections| {
        return -3, "";
      }
      var j := 0;
      while j < |sections[i].attrs| && sections[i].attrs[j].key != key
        invariant 0 <= j <= AttrIndex(sections[i].attrs, key)
      {
        j := j + 1;
      }
      if j == |sections[i].attrs| {
        return -4, "";
      }
      return 0, sections[i].attrs[j].value;
    }
  }

  function ClassifyAll(lines: seq<string>): (r: seq<Line>)
    ensures |r| == |lines| && forall i :: 0 <= i < |r| ==> r[i] == Classify(lines[i])
  {
    seq(|lines|, i requires 0 <= i < |lines| => Classify(lines[i]))
  }

  /** After an error the rest of the lines does not matter. */
  lemma {:induction false} StoppedAt(lines: seq<Line>, n: nat)
    requires n <= |lines| && (n == |lines| || ParseLines(lines[..n]).ret != 0)
    ensures ParseLines(lines) == ParseLines(lines[..n])
  {
    if n == |lines| {
      assert lines[..n] == lines;
    } else {
      assert lines[..|lines| - 1][..n] == lines[..n];
      StoppedAt(lines[..|lines| - 1], n);
    }
  }
}
