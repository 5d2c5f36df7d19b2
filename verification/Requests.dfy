/**
 The bodies of control requests: printed by the client, taken apart by the server.
 */
module Requests {
  import opened CloudTypes
  import opened Strings

  const FILENAME_MAXLEN: nat := 256
  const DWLDTASKINFO_MAXLEN: nat := FILENAME_MAXLEN + 128
  const USERNAME_MAXLEN: nat := 32
  const PASSWD_MINLEN: nat := 6
  const PASSWD_MAXLEN: nat := 16

  const SYMB_FILETYPE := "filetype="
  const SYMB_FILENAME := ", filename="
  const SYMB_STARTOFFSET := ", startOffset="
  const SYMB_FILEID := ", fileId="
  const SYMB_USERNAME := "username="
  const SYMB_PASSWD := ", password="

  // The positions found are `unsigned int` and compared with `string::npos`, which is wider on a
  // 64-bit target: that a symbol is missing goes unnoticed, and a substring from behind the end
  // of the body throws.
  datatype DwldReq = BadReq(ret: int) | DwldReq(key: Key, startOffset: int, fileId: int) | ReqThrows
  datatype Login = BadLogin(ret: int) | Login(username: string, passwd: string) | LoginThrows

  predicate IsInt32(n: int) { -0x8000_0000 <= n < 0x8000_0000 }

  // ---------------------------------------------------------------- download requests

  function DwldText(key: Key, startOffset: int, fileId: int): string {
    BodyText(SYMB_FILETYPE + Itoa(key.filetype), key.filename, Itoa(startOffset), Itoa(fileId))
  }

  /** The client's body: the text, cut to the buffer. */
  function DwldBody(key: Key, startOffset: int, fileId: int): string {
    var text := DwldText(key, startOffset, fileId);
    if |text| >= DWLDTASKINFO_MAXLEN then text[..DWLDTASKINFO_MAXLEN - 1] else text
  }

  // The four fields, each cut out between the first occurrences of its separators.

  function FieldType(body: string): int
    requires |body| >= |SYMB_FILETYPE|
  {
    Atoi(Sub(body, |SYMB_FILETYPE|, FindStr(body, SYMB_FILENAME)))
  }

  function FieldName(body: string): string
    requires Contains(body, SYMB_FILENAME)
  {
    var filename := Sub(body, FindStr(body, SYMB_FILENAME) + |SYMB_FILENAME|, FindStr(body, SYMB_STARTOFFSET));
    filename[..Min(|filename|, FILENAME_MAXLEN)]
  }

  function FieldOffset(body: string): int
    requires Contains(body, SYMB_STARTOFFSET)
  {
    Atoi(Sub(body, FindStr(body, SYMB_STARTOFFSET) + |SYMB_STARTOFFSET|, FindStr(body, SYMB_FILEID)))
  }

  function FieldId(body: string): int
    requires Contains(body, SYMB_FILEID)
  {
    Atoi(body[FindStr(body, SYMB_FILEID) + |SYMB_FILEID|..])
  }

  /** The server's parser. */
  function GetDwldReqInfo(body: string): DwldReq {
    var pos1 := FindStr(body, SYMB_FILETYPE);
    if pos1 != 0 then BadReq(-3)
    else if !Contains(body, SYMB_FILENAME) || !Contains(body, SYMB_STARTOFFSET) || !Contains(body, SYMB_FILEID) then ReqThrows
    else DwldReq(Key(FieldType(body), FieldName(body)), FieldOffset(body), FieldId(body))
  }

  /** Nothing is ever cut off a body: file names fit their buffer, numbers are 32 bits wide. */
  lemma BodyNeverCut(key: Key, startOffset: int, fileId: int)
    requires |key.filename| < FILENAME_MAXLEN && IsInt32(key.filetype) && IsInt32(startOffset) && IsInt32(fileId)
    ensures DwldBody(key, startOffset, fileId) == DwldText(key, startOffset, fileId)
    ensures DwldBody(key, startOffset, fileId) ==
            "filetype=" + Itoa(key.filetype) + ", filename=" + key.filename
            + ", startOffset=" + Itoa(startOffset) + ", fileId=" + Itoa(fileId)
  {
    ItoaLength(key.filetype);
    ItoaLength(startOffset);
    ItoaLength(fileId);
    Flatten(SYMB_FILETYPE + Itoa(key.filetype), key.filename, Itoa(startOffset), Itoa(fileId));
  }

  lemma Flatten(x: string, name: string, off: string, id: string)
    ensures BodyText(x, name, off, id) == x + ", filename=" + name + ", startOffset=" + off + ", fileId=" + id
  {
  }

  /** Which bodies are refused: those that do not begin with the first symbol, and, by throwing,
      those that lack another one. */
  lemma RefusedExactly(body: string)
    ensures GetDwldReqInfo(body) == BadReq(-3) <==> !("filetype=" <= body)
    ensures GetDwldReqInfo(body) == ReqThrows <==>
            && "filetype=" <= body
            && ((forall i :: !OccursAt(body, ", filename=", i)) || (forall i :: !OccursAt(body, ", startOffset=", i))
                || (forall i :: !OccursAt(body, ", fileId=", i)))
    ensures GetDwldReqInfo(body).BadReq? ==> GetDwldReqInfo(body) == BadReq(-3)
  {
    PrefixFound(body, SYMB_FILETYPE);
    MissingExactly(body, SYMB_FILENAME);
    MissingExactly(body, SYMB_STARTOFFSET);
    MissingExactly(body, SYMB_FILEID);
  }

  lemma PrefixFound(s: string, pat: string)
    ensures FindStr(s, pat) == 0 <==> pat <= s
  {
    if pat <= s {
      assert s[0..|pat|] == pat;
      FindUnique(s, pat, 0);
    }
  }

  lemma MissingExactly(s: string, pat: string)
    ensures !Contains(s, pat) <==> forall i :: !OccursAt(s, pat, i)
  {
  }

  /** What is read from any other body: the pieces between the places where the symbols are first
      found, or all of the rest where a symbol comes before the one it should follow; the name is
      cut to its buffer. */
  lemma PiecesRead(body: string, p1: nat, p2: nat, p3: nat)
    requires "filetype=" <= body
    requires FindStr(body, ", filename=") == p1 && FindStr(body, ", startOffset=") == p2 && FindStr(body, ", fileId=") == p3
    ensures p1 + 11 <= |body| && p2 + 14 <= |body| && p3 + 9 <= |body|
    ensures var filetype := if 9 <= p1 then body[9..p1] else body[9..];
            var filename := if p1 + 11 <= p2 then body[p1 + 11..p2] else body[p1 + 11..];
            var startOffset := if p2 + 14 <= p3 then body[p2 + 14..p3] else body[p2 + 14..];
            GetDwldReqInfo(body) ==
            DwldReq(Key(Atoi(filetype), filename[..Min(|filename|, 256)]), Atoi(startOffset), Atoi(body[p3 + 9..]))
  {
    PrefixFound(body, SYMB_FILETYPE);
    FoundInside(body, SYMB_FILENAME);
    FoundInside(body, SYMB_STARTOFFSET);
    FoundInside(body, SYMB_FILEID);
    NumberPiece(body, 9, p1);
    NamePiece(body, p1, p2);
    NumberPiece(body, p2 + 14, p3);
    OffsetIs(body, p2 + 14, p3);
    FieldsRead(body);
  }

  lemma FieldsRead(body: string)
    requires FindStr(body, SYMB_FILETYPE) == 0 && |body| >= |SYMB_FILETYPE|
    requires Contains(body, SYMB_FILENAME) && Contains(body, SYMB_STARTOFFSET) && Contains(body, SYMB_FILEID)
    ensures GetDwldReqInfo(body) == DwldReq(Key(FieldType(body), FieldName(body)), FieldOffset(body), FieldId(body))
  {
  }

  lemma OffsetIs(body: string, at: nat, end: int)
    requires Contains(body, SYMB_STARTOFFSET) && FindStr(body, SYMB_STARTOFFSET) + |SYMB_STARTOFFSET| == at
    requires FindStr(body, SYMB_FILEID) == end
    ensures at <= |body| && FieldOffset(body) == Atoi(Sub(body, at, end))
  {
  }

  lemma FoundInside(s: string, pat: string)
    requires Contains(s, pat)
    ensures 0 <= FindStr(s, pat) && FindStr(s, pat) + |pat| <= |s|
  {
  }

  lemma NumberPiece(body: string, at: nat, end: nat)
    requires at <= |body| && end <= |body|
    ensures Atoi(Sub(body, at, end)) == Atoi(if at <= end then body[at..end] else body[at..])
  {
  }

  lemma NamePiece(body: string, p1: nat, p2: nat)
    requires Contains(body, SYMB_FILENAME) && FindStr(body, SYMB_FILENAME) == p1 && FindStr(body, SYMB_STARTOFFSET) == p2
    requires p1 + 11 <= |body| && p2 <= |body|
    ensures var filename := if p1 + 11 <= p2 then body[p1 + 11..p2] else body[p1 + 11..];
            FieldName(body) == filename[..Min(|filename|, 256)]
  {
  }

  lemma ItoaPlain(n: int)
    ensures Itoa(n) != "" && ',' !in Itoa(n)
  {
    NatToStringReads(if n < 0 then -n else n);
  }

  /** Where separator `pat` is found behind comma-free text and another separator, in a name or
      at place `at` behind the name. */
  lemma {:induction false} FindThrough(x: string, sep: string, name: string, tail: string, pat: string, m: nat)
    requires IsSeparator(sep) && IsSeparator(pat) && m < |sep| && m < |pat| && sep[m] != pat[m]
    requires ',' !in x && tail != "" && tail[0] == ',' && |pat| <= |sep| + |tail| && Contains(tail, pat)
    ensures FindStr(x + (sep + (name + tail)), pat) ==
            |x| + |sep| + if Contains(name, pat) then FindStr(name, pat) else |name| + FindStr(tail, pat)
  {
    LacksComma(x, pat);
    FindBehind(name, tail, pat);
    FindPast(sep, name + tail, pat, m);
    FindBehind(x, sep + (name + tail), pat);
  }

  lemma Separators()
    ensures IsSeparator(SYMB_FILENAME) && IsSeparator(SYMB_STARTOFFSET) && IsSeparator(SYMB_FILEID) && IsSeparator(SYMB_PASSWD)
    ensures SYMB_FILENAME[2] != SYMB_STARTOFFSET[2] && SYMB_FILENAME[6] != SYMB_FILEID[6] && SYMB_STARTOFFSET[2] != SYMB_FILEID[2]
  {
  }

  function TailText(off: string, id: string): string { SYMB_STARTOFFSET + (off + (SYMB_FILEID + id)) }

  lemma TailPositions(off: string, id: string)
    requires ',' !in off
    ensures FindStr(TailText(off, id), SYMB_STARTOFFSET) == 0
    ensures FindStr(TailText(off, id), SYMB_FILEID) == |SYMB_STARTOFFSET| + |off|
  {
    Separators();
    var idPart := SYMB_FILEID + id;
    FindAtFront(SYMB_STARTOFFSET, off + idPart);
    FindAtFront(SYMB_FILEID, id);
    LacksComma(off, SYMB_FILEID);
    FindBehind(off, idPart, SYMB_FILEID);
    FindPast(SYMB_STARTOFFSET, off + idPart, SYMB_FILEID, 2);
  }

  /** A request body, from its printed parts. */
  function BodyText(x: string, name: string, off: string, id: string): string {
    x + (SYMB_FILENAME + (name + TailText(off, id)))
  }

  lemma NamePosition(x: string, name: string, off: string, id: string)
    requires ',' !in x
    ensures FindStr(BodyText(x, name, off, id), SYMB_FILENAME) == |x|
  {
    var rest := name + TailText(off, id);
    Separators();
    LacksComma(x, SYMB_FILENAME);
    FindAtFront(SYMB_FILENAME, rest);
    FindBehind(x, SYMB_FILENAME + rest, SYMB_FILENAME);
  }

  lemma {:induction false} OffsetPosition(x: string, name: string, off: string, id: string)
    requires ',' !in x && ',' !in off
    ensures FindStr(BodyText(x, name, off, id), SYMB_STARTOFFSET) ==
            |x| + |SYMB_FILENAME| + if Contains(name, SYMB_STARTOFFSET) then FindStr(name, SYMB_STARTOFFSET) else |name|
  {
    Separators();
    TailPositions(off, id);
    FindThrough(x, SYMB_FILENAME, name, TailText(off, id), SYMB_STARTOFFSET, 2);
  }

  lemma {:induction false} IdPosition(x: string, name: string, off: string, id: string)
    requires ',' !in x && ',' !in off
    ensures FindStr(BodyText(x, name, off, id), SYMB_FILEID) ==
            |x| + |SYMB_FILENAME| + if Contains(name, SYMB_FILEID) then FindStr(name, SYMB_FILEID)
                                    else |name| + |SYMB_STARTOFFSET| + |off|
  {
    Separators();
    TailPositions(off, id);
    FindThrough(x, SYMB_FILENAME, name, TailText(off, id), SYMB_FILEID, 6);
  }

  /** The number that follows the first ", fileId=" inside a name. */
  function IdInName(name: string): int
    requires Contains(name, SYMB_FILEID)
  {
    Atoi(name[FindStr(name, SYMB_FILEID) + |SYMB_FILEID|..])
  }

  /** When the name survives. */
  predicate Transparent(name: string, fileId: int) {
    !Contains(name, SYMB_STARTOFFSET) && (Contains(name, SYMB_FILEID) ==> IdInName(name) == fileId)
  }

  // ---------------------------------------------------------------- what the server reads back

  lemma OffsetReadBack(off: int, id: string, end: int, before: string)
    requires end == |before| + |SYMB_STARTOFFSET| + |Itoa(off)| || end < |before| + |SYMB_STARTOFFSET|
    ensures Atoi(Sub(before + TailText(Itoa(off), id), |before| + |SYMB_STARTOFFSET|, end)) == off
  {
    NumberCut(before, SYMB_STARTOFFSET, off, SYMB_FILEID + id, end);
  }

  lemma NumberCut(before: string, sep: string, n: int, rest: string, end: int)
    requires end == |before| + |sep| + |Itoa(n)| || end < |before| + |sep|
    requires rest != "" && !IsDigit(rest[0])
    ensures Atoi(Sub(before + (sep + (Itoa(n) + rest)), |before| + |sep|, end)) == n
  {
    Regroup(before, sep, Itoa(n) + rest);
    CutMiddle(before + sep, Itoa(n), rest);
    AtoiReadsItoa(n, rest);
    AtoiReadsAll(n);
  }

  lemma LastCut(a: string, b: string, c: string, d: string, e: string)
    ensures (a + (b + (c + (d + e))))[|a| + |b| + |c| + |d|..] == e
  {
    assert a + (b + (c + (d + e))) == (a + b + c + d) + e;
  }

  lemma IdInsideName(before: string, name: string, tail: string, f: nat)
    requires f <= |name| && tail != "" && tail[0] == ','
    ensures Atoi((before + (name + tail))[|before| + f..]) == Atoi(name[f..])
  {
    assert (before + (name + tail))[|before| + f..] == name[f..] + tail;
    AtoiStopsAtComma(name[f..], tail);
  }

  lemma TypeReadBack(filetype: int, rest: string)
    ensures var x := SYMB_FILETYPE + Itoa(filetype);
            Atoi(Sub(x + rest, |SYMB_FILETYPE|, |x|)) == filetype && FindStr(x + rest, SYMB_FILETYPE) == 0
  {
    Regroup(SYMB_FILETYPE, Itoa(filetype), rest);
    CutMiddle(SYMB_FILETYPE, Itoa(filetype), rest);
    AtoiReadsAll(filetype);
    FindAtFront(SYMB_FILETYPE, Itoa(filetype) + rest);
  }

  lemma TypeField(x: string, name: string, off: string, id: string, filetype: int)
    requires x == SYMB_FILETYPE + Itoa(filetype)
    ensures var body := BodyText(x, name, off, id);
            FindStr(body, SYMB_FILETYPE) == 0 && |body| >= |SYMB_FILETYPE| && FieldType(body) == filetype
  {
    ItoaPlain(filetype);
    NamePosition(x, name, off, id);
    TypeReadBack(filetype, SYMB_FILENAME + (name + TailText(off, id)));
  }

  lemma {:induction false} NameField(x: string, name: string, off: string, id: string)
    requires ',' !in x && ',' !in off && |name| < FILENAME_MAXLEN
    ensures var body := BodyText(x, name, off, id);
            Contains(body, SYMB_FILENAME) && Contains(body, SYMB_STARTOFFSET) &&
            FieldName(body) ==
            if Contains(name, SYMB_STARTOFFSET) then name[..FindStr(name, SYMB_STARTOFFSET)] else name
  {
    var body := BodyText(x, name, off, id);
    NamePosition(x, name, off, id);
    OffsetPosition(x, name, off, id);
    NameInFront(x, name, TailText(off, id));
    NameFound(body, x + SYMB_FILENAME, name, TailText(off, id));
  }

  lemma NameFound(body: string, before: string, name: string, tail: string)
    requires |name| < FILENAME_MAXLEN && body == before + (name + tail) && Contains(body, SYMB_FILENAME)
    requires FindStr(body, SYMB_FILENAME) + |SYMB_FILENAME| == |before|
    requires FindStr(body, SYMB_STARTOFFSET) ==
             |before| + if Contains(name, SYMB_STARTOFFSET) then FindStr(name, SYMB_STARTOFFSET) else |name|
    ensures FieldName(body) ==
            if Contains(name, SYMB_STARTOFFSET) then name[..FindStr(name, SYMB_STARTOFFSET)] else name
  {
    NameBetween(body, before, name, tail,
                if Contains(name, SYMB_STARTOFFSET) then FindStr(name, SYMB_STARTOFFSET) else |name|);
  }

  lemma NameBetween(body: string, before: string, name: string, tail: string, p: nat)
    requires p <= |name| < FILENAME_MAXLEN && body == before + (name + tail) && Contains(body, SYMB_FILENAME)
    requires FindStr(body, SYMB_FILENAME) + |SYMB_FILENAME| == |before|
    requires FindStr(body, SYMB_STARTOFFSET) == |before| + p
    ensures FieldName(body) == name[..p] && (p == |name| ==> FieldName(body) == name)
  {
    NameCut(before, name, tail, p);
    NameIs(body, |before|, |before| + p);
  }

  lemma NameIs(body: string, at: nat, end: nat)
    requires Contains(body, SYMB_FILENAME) && FindStr(body, SYMB_FILENAME) + |SYMB_FILENAME| == at
    requires FindStr(body, SYMB_STARTOFFSET) == end
    ensures at <= |body| && FieldName(body) == Sub(body, at, end)[..Min(|Sub(body, at, end)|, FILENAME_MAXLEN)]
  {
  }

  lemma NameCut(before: string, name: string, tail: string, p: nat)
    requires p <= |name| < FILENAME_MAXLEN
    ensures var cut := Sub(before + (name + tail), |before|, |before| + p);
            cut == name[..p] && cut[..Min(|cut|, FILENAME_MAXLEN)] == name[..p] && (p == |name| ==> name[..p] == name)
  {
    assert (before + (name + tail))[|before|..|before| + p] == name[..p];
    assert name[..p][..p] == name[..p];
  }

  lemma OffsetField(x: string, name: string, off: int, id: string)
    requires ',' !in x && !Contains(name, SYMB_STARTOFFSET)
    ensures var body := BodyText(x, name, Itoa(off), id);
            Contains(body, SYMB_STARTOFFSET) && FieldOffset(body) == off
  {
    ItoaPlain(off);
    OffsetPosition(x, name, Itoa(off), id);
    IdPosition(x, name, Itoa(off), id);
    NameInFront(x, name, TailText(Itoa(off), id));
    var body, before := BodyText(x, name, Itoa(off), id), x + SYMB_FILENAME + name;
    OffsetReadBack(off, id, FindStr(body, SYMB_FILEID), before);
    OffsetIs(body, |before| + |SYMB_STARTOFFSET|, FindStr(body, SYMB_FILEID));
  }

  lemma NameInFront(x: string, name: string, tail: string)
    ensures x + (SYMB_FILENAME + (name + tail)) == (x + SYMB_FILENAME) + (name + tail) == (x + SYMB_FILENAME + name) + tail
  {
    Regroup(x, SYMB_FILENAME, name + tail);
    Regroup(x + SYMB_FILENAME, name, tail);
  }

  lemma IdAt(body: string, at: nat, text: string)
    requires Contains(body, SYMB_FILEID) && FindStr(body, SYMB_FILEID) + |SYMB_FILEID| == at
    requires at <= |body| && Atoi(body[at..]) == Atoi(text)
    ensures FieldId(body) == Atoi(text)
  {
  }

  lemma IdField(x: string, name: string, off: string, id: int)
    requires ',' !in x && ',' !in off
    ensures var body := BodyText(x, name, off, Itoa(id));
            Contains(body, SYMB_FILEID) &&
            FieldId(body) == if Contains(name, SYMB_FILEID) then IdInName(name) else id
  {
    IdPosition(x, name, off, Itoa(id));
    NameInFront(x, name, TailText(off, Itoa(id)));
    if Contains(name, SYMB_FILEID) {
      IdFieldInside(x, name, off, id, BodyText(x, name, off, Itoa(id)));
    } else {
      IdFieldBehind(x, name, off, id, BodyText(x, name, off, Itoa(id)));
    }
  }

  lemma IdFieldInside(x: string, name: string, off: string, id: int, body: string)
    requires Contains(name, SYMB_FILEID) && body == (x + SYMB_FILENAME) + (name + TailText(off, Itoa(id)))
    requires FindStr(body, SYMB_FILEID) == |x| + |SYMB_FILENAME| + FindStr(name, SYMB_FILEID)
    ensures FieldId(body) == IdInName(name)
  {
    var f := FindStr(name, SYMB_FILEID) + |SYMB_FILEID|;
    IdInsideName(x + SYMB_FILENAME, name, TailText(off, Itoa(id)), f);
    IdAt(body, |x + SYMB_FILENAME| + f, name[f..]);
  }

  lemma IdFieldBehind(x: string, name: string, off: string, id: int, body: string)
    requires body == (x + SYMB_FILENAME + name) + TailText(off, Itoa(id))
    requires FindStr(body, SYMB_FILEID) == |x| + |SYMB_FILENAME| + |name| + |SYMB_STARTOFFSET| + |off|
    ensures FieldId(body) == id
  {
    var before := x + SYMB_FILENAME + name;
    AtoiReadsAll(id);
    LastCut(before, SYMB_STARTOFFSET, off, SYMB_FILEID, Itoa(id));
    IdAt(body, |before| + |SYMB_STARTOFFSET| + |off| + |SYMB_FILEID|, Itoa(id));
  }

  /** A download request arrives as it was sent exactly when its file name holds no
      ", startOffset=", and either no ", fileId=" or one that happens to be followed by the
      request's own file id. */
  lemma RequestRoundTrip(key: Key, off: int, id: int)
    requires |key.filename| < FILENAME_MAXLEN && IsInt32(key.filetype) && IsInt32(off) && IsInt32(id)
    ensures GetDwldReqInfo(DwldBody(key, off, id)) == DwldReq(key, off, id) <==> Transparent(key.filename, id)
  {
    var x := SYMB_FILETYPE + Itoa(key.filetype);
    BodyNeverCut(key, off, id);
    ItoaPlain(key.filetype);
    ItoaPlain(off);
    assert ',' !in x;
    TypeField(x, key.filename, Itoa(off), Itoa(id), key.filetype);
    NameField(x, key.filename, Itoa(off), Itoa(id));
    IdField(x, key.filename, Itoa(off), id);
    if !Contains(key.filename, SYMB_STARTOFFSET) {
      OffsetField(x, key.filename, off, Itoa(id));
    }
  }

  // ---------------------------------------------------------------- log-in requests

  function LoginBody(username: string, passwd: string): string {
    (SYMB_USERNAME + username) + (SYMB_PASSWD + passwd)
  }

  function GetUserPasswd(body: string): Login {
    var pos1 := FindStr(body, SYMB_USERNAME);
    if pos1 != 0 then BadLogin(-3)
    else
      var pos2 := FindStr(body, SYMB_PASSWD);
      if pos2 < 0 then
        if |body| - |SYMB_USERNAME| > USERNAME_MAXLEN then BadLogin(-5) else LoginThrows
      else
        var username := Sub(body, |SYMB_USERNAME|, pos2);
        var passwd := body[pos2 + |SYMB_PASSWD|..];
        if |username| > USERNAME_MAXLEN then BadLogin(-5)
        else if |passwd| < PASSWD_MINLEN || |passwd| > PASSWD_MAXLEN then BadLogin(-6)
        else Login(username, passwd)
  }

  lemma UserPosition(username: string)
    ensures Contains(SYMB_USERNAME + username, SYMB_PASSWD) <==> Contains(username, SYMB_PASSWD)
    ensures Contains(username, SYMB_PASSWD) ==>
              FindStr(SYMB_USERNAME + username, SYMB_PASSWD) == |SYMB_USERNAME| + FindStr(username, SYMB_PASSWD)
  {
    var s := SYMB_USERNAME + username;
    OccursInPart(SYMB_USERNAME, username, SYMB_PASSWD);
    forall i | 0 <= i < |SYMB_USERNAME| && i + |SYMB_PASSWD| <= |s|
      ensures !OccursAt(s, SYMB_PASSWD, i)
    {
      assert s[i..i + |SYMB_PASSWD|][0] == SYMB_USERNAME[i];
    }
    if Contains(username, SYMB_PASSWD) {
      FindUnique(s, SYMB_PASSWD, |SYMB_USERNAME| + FindStr(username, SYMB_PASSWD));
    }
  }

  /** A log-in request arrives as it was sent exactly when the lengths are accepted and the user
      name holds no ", password=". */
  lemma LoginRoundTrip(username: string, passwd: string)
    ensures LoginBody(username, passwd) == "username=" + username + ", password=" + passwd
    ensures GetUserPasswd(LoginBody(username, passwd)) == Login(username, passwd) <==>
            !Contains(username, SYMB_PASSWD) && |username| <= USERNAME_MAXLEN
            && PASSWD_MINLEN <= |passwd| <= PASSWD_MAXLEN
  {
    LoginText(username, passwd);
    if Contains(username, SYMB_PASSWD) {
      LoginSwallowed(username, passwd);
    } else {
      LoginExactly(username, passwd);
    }
  }

  /** What the server makes of any body: the user name ends where ", password=" is first found. */
  lemma LoginExactly(user: string, pass: string)
    requires !Contains(user, ", password=")
    ensures GetUserPasswd("username=" + user + ", password=" + pass) ==
            if |user| > 32 then BadLogin(-5)
            else if |pass| < 6 || |pass| > 16 then BadLogin(-6)
            else Login(user, pass)
  {
    Separators();
    var x, rest := SYMB_USERNAME + user, SYMB_PASSWD + pass;
    assert "username=" + user + ", password=" + pass == x + rest;
    Regroup(SYMB_USERNAME, user, rest);
    FindAtFront(SYMB_USERNAME, user + rest);
    FindAtFront(SYMB_PASSWD, pass);
    FindBehind(x, rest, SYMB_PASSWD);
    UserPosition(user);
    LoginCuts(SYMB_USERNAME, user, SYMB_PASSWD, pass);
  }

  /** Every body either does not begin right, or lacks the password, or is of that form. */
  lemma LoginForms(body: string) returns (user: string, pass: string)
    ensures !("username=" <= body) ==> GetUserPasswd(body) == BadLogin(-3)
    ensures "username=" <= body && (forall i :: !OccursAt(body, ", password=", i)) ==>
              GetUserPasswd(body) == if |body| > 9 + 32 then BadLogin(-5) else LoginThrows
    ensures "username=" <= body && (exists i :: OccursAt(body, ", password=", i)) ==>
              !Contains(user, ", password=") && body == "username=" + user + ", password=" + pass
  {
    PrefixFound(body, SYMB_USERNAME);
    MissingExactly(body, SYMB_PASSWD);
    user, pass := "", "";
    if "username=" <= body && Contains(body, SYMB_PASSWD) {
      var pos := FindStr(body, SYMB_PASSWD);
      assert pos >= 9 by { PasswordBehindUser(body, pos); }
      user, pass := body[9..pos], body[pos + 11..];
      assert body == body[..9] + body[9..pos] + body[pos..pos + 11] + body[pos + 11..];
      NotInFront(body, pos);
    }
  }

  lemma PasswordBehindUser(body: string, pos: nat)
    requires "username=" <= body && OccursAt(body, SYMB_PASSWD, pos)
    ensures pos >= 9
  {
    assert body[pos] == ',' by { assert body[pos..pos + |SYMB_PASSWD|][0] == ','; }
    assert forall j :: 0 <= j < 9 ==> body[j] == "username="[j];
  }

  lemma SliceInside(s: string, a: nat, b: nat, i: nat, j: nat)
    requires a <= b <= |s| && i <= j <= b - a
    ensures s[a..b][i..j] == s[a + i..a + j]
  {
    assert forall k :: 0 <= k < j - i ==> s[a..b][i..j][k] == s[a + i + k];
  }

  lemma NotInFront(body: string, pos: nat)
    requires 9 <= pos <= |body| && forall i :: 0 <= i < pos ==> !OccursAt(body, SYMB_PASSWD, i)
    ensures !Contains(body[9..pos], SYMB_PASSWD)
  {
    var user := body[9..pos];
    forall i | 0 <= i && i + |SYMB_PASSWD| <= |user|
      ensures !OccursAt(user, SYMB_PASSWD, i)
    {
      SliceInside(body, 9, pos, i, i + |SYMB_PASSWD|);
      assert !OccursAt(body, SYMB_PASSWD, 9 + i);
    }
  }

  lemma LoginText(username: string, passwd: string)
    ensures LoginBody(username, passwd) == "username=" + username + ", password=" + passwd
  {
  }

  lemma LoginSwallowed(username: string, passwd: string)
    requires Contains(username, SYMB_PASSWD)
    ensures GetUserPasswd(LoginBody(username, passwd)) != Login(username, passwd)
  {
    Separators();
    var x, rest := SYMB_USERNAME + username, SYMB_PASSWD + passwd;
    Regroup(SYMB_USERNAME, username, rest);
    FindAtFront(SYMB_USERNAME, username + rest);
    FindAtFront(SYMB_PASSWD, passwd);
    FindBehind(x, rest, SYMB_PASSWD);
    UserPosition(username);
    ShortCut(x + rest, |SYMB_USERNAME|, FindStr(username, SYMB_PASSWD));
    OtherLogin(x + rest, username, passwd);
  }

  lemma ShortCut(s: string, at: nat, n: nat)
    requires at + n <= |s|
    ensures |Sub(s, at, at + n)| == n
  {
  }

  lemma OtherLogin(body: string, username: string, passwd: string)
    requires FindStr(body, SYMB_USERNAME) == 0 && Contains(body, SYMB_PASSWD)
    requires |Sub(body, |SYMB_USERNAME|, FindStr(body, SYMB_PASSWD))| != |username|
    ensures GetUserPasswd(body) != Login(username, passwd)
  {
  }

  lemma LoginCuts(a: string, username: string, b: string, passwd: string)
    ensures var body := (a + username) + (b + passwd);
            Sub(body, |a|, |a + username|) == username && body[|a + username| + |b|..] == passwd
  {
    var body := (a + username) + (b + passwd);
    assert body[|a|..|a + username|] == username;
  }
}
