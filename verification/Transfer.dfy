/**
 The server side of a download, and the meaning of a stream of units for the local file.

 `Stream` is the sequence of units the server owes for a file from a given unit on, and
 `CliData.Run` is the loop that produces it.  `WriteAt` is one `fseek` and `fwrite`;
 `Replay` is the effect of a whole sequence of units, up to the first end-of-file unit.
 */
module Transfer {
  import opened CloudTypes

  // ---------------------------------------------------------------- the sender

  /** The units the server sends for `file` from unit `u` on. */
  function Stream(file: Bytes, u: nat): (units: seq<Unit>)
    decreases |file| - u * UNIT_LEN
  {
    var at := u * UNIT_LEN;
    if at >= |file| then [EOF_UNIT]
    else if |file| - at < UNIT_LEN then [Unit(false, u, file[at..]), EOF_UNIT]
    else [Unit(false, u, file[at..at + UNIT_LEN])] + Stream(file, u + 1)
  }

  /** Exactly one end-of-file unit, at the end. */
  ghost predicate EndsWithOnlyEof(units: seq<Unit>) {
    |units| > 0 && units[|units| - 1] == EOF_UNIT && NoEof(units[..|units| - 1])
  }

  ghost predicate NoEof(units: seq<Unit>) {
    forall i :: 0 <= i < |units| ==> !units[i].isEof
  }

  /** Concatenation of the bodies. */
  ghost function Bodies(units: seq<Unit>): Bytes {
    if units == [] then [] else units[0].body + Bodies(units[1..])
  }

  /** The stream carries the file from unit `u` on, each byte once and in order, numbers its
      units consecutively, and ends with the only end-of-file unit. */
  lemma {:induction false} StreamCarriesFile(file: Bytes, u: nat)
    ensures Bodies(Stream(file, u)) == file[Min(u * UNIT_LEN, |file|)..]
    ensures EndsWithOnlyEof(Stream(file, u))
    ensures forall i :: 0 <= i < |Stream(file, u)| - 1 ==>
              Stream(file, u)[i].unitId == u + i && 0 < |Stream(file, u)[i].body| <= UNIT_LEN
    decreases |file| - u * UNIT_LEN
  {
    var units := Stream(file, u);
    var at := u * UNIT_LEN;
    if |file| - at >= UNIT_LEN {
      var rest := Stream(file, u + 1);
      StreamCarriesFile(file, u + 1);
      assert units[1..] == rest;
      assert file[at..] == file[at..at + UNIT_LEN] + file[at + UNIT_LEN..];
      UnitInFront(units[0], rest, u);
    } else if at < |file| {
      BodiesPair(units[0], EOF_UNIT);
      assert units == [units[0], EOF_UNIT];
    } else {
      assert units[1..] == [];
    }
  }

  lemma BodiesPair(a: Unit, b: Unit)
    ensures Bodies([a, b]) == a.body + b.body
  {
    assert [a, b][1..] == [b] && [b][1..] == [];
    assert Bodies([b]) == b.body + Bodies([]) == b.body;
  }

  lemma UnitInFront(unit: Unit, rest: seq<Unit>, u: nat)
    requires !unit.isEof && unit.unitId == u && 0 < |unit.body| <= UNIT_LEN && EndsWithOnlyEof(rest)
    requires forall i :: 0 <= i < |rest| - 1 ==> rest[i].unitId == u + 1 + i && 0 < |rest[i].body| <= UNIT_LEN
    ensures EndsWithOnlyEof([unit] + rest)
    ensures forall i :: 0 <= i < |rest| ==>
              ([unit] + rest)[i].unitId == u + i && 0 < |([unit] + rest)[i].body| <= UNIT_LEN
  {
    var units := [unit] + rest;
    forall i | 0 <= i < |units| - 1
      ensures !units[i].isEof && units[i].unitId == u + i && 0 < |units[i].body| <= UNIT_LEN
    {
      if i > 0 {
        assert units[i] == rest[i - 1] == rest[..|rest| - 1][i - 1];
      }
    }
  }

  /** What one turn of the loop puts behind what was sent before. */
  lemma Turn(sent: seq<Unit>, file: Bytes, u: nat)
    requires u * UNIT_LEN < |file|
    ensures var data := file[u * UNIT_LEN..Min(u * UNIT_LEN + UNIT_LEN, |file|)];
            var sent' := sent + [Unit(false, u, data)];
            sent + Stream(file, u) ==
            if |data| == UNIT_LEN then sent' + Stream(file, u + 1) else sent' + [EOF_UNIT]
  {
    var at := u * UNIT_LEN;
    if |file| - at < UNIT_LEN {
      assert file[at..|file|] == file[at..];
    }
  }

  /** One download on the server: `CliData` with its open file. */
  class CliData {
    const file: Bytes    // what the open read handle reads
    const readHdl: int
    const offset: nat
    var sent: seq<Unit>  // what has been written to the data socket so far

    constructor (file: Bytes, offset: nat, readHdl: int)
      ensures this.file == file && this.offset == offset && this.readHdl == readHdl && sent == []
    {
      this.file, this.offset, this.readHdl, sent := file, offset, readHdl, [];
    }

    /** The sending loop.  `polls` is how often the run state is still found to be running:
        a thread that is never stopped has more polls than the file has units.  What has been
        sent is always an initial part of the stream, and all of it once polls suffice. */
    method Run(polls: nat)
      modifies this
      ensures old(sent) <= sent
      ensures readHdl < 0 ==> sent == old(sent)
      ensures sent <= old(sent) + Stream(file, offset / UNIT_LEN)
      ensures readHdl >= 0 && polls > |file| / UNIT_LEN ==>
                sent == old(sent) + Stream(file, offset / UNIT_LEN)
      ensures readHdl >= 0 ==> |sent| >= |old(sent)| + Min(polls, |Stream(file, offset / UNIT_LEN)|)
    {
      var unitId: nat := offset / UNIT_LEN;
      var left := polls;
      ghost var total := old(sent) + Stream(file, unitId);
      while left > 0 && readHdl >= 0
        invariant sent + Stream(file, unitId) == total
        invariant old(sent) <= sent
        invariant unitId >= offset / UNIT_LEN
        invariant 0 <= left
        invariant unitId > offset / UNIT_LEN ==> unitId * UNIT_LEN <= |file|
        invariant left + unitId == polls + offset / UNIT_LEN
        invariant readHdl < 0 ==> left == polls && sent == old(sent)
        invariant |sent| == |old(sent)| + polls - left
        decreases left
      {
        var at := unitId * UNIT_LEN;
        if at >= |file| {
          sent := sent + [EOF_UNIT];
          return;
        }
        var data := file[at..Min(at + UNIT_LEN, |file|)];
        Turn(sent, file, unitId);
        sent := sent + [Unit(false, unitId, data)];
        if |data| != UNIT_LEN {
          sent := sent + [EOF_UNIT];
          return;
        }
        unitId, left := unitId + 1, left - 1;
      }
    }
  }

  // ---------------------------------------------------------------- the local file

  /** `fseek` to `at`, then `fwrite`: a gap reads as zero bytes, an empty write changes nothing. */
  function WriteAt(local: Bytes, at: nat, body: Bytes): Bytes {
    if body == [] then local
    else seq(Max(|local|, at + |body|), i requires 0 <= i < Max(|local|, at + |body|) =>
               if at <= i < at + |body| then body[i - at]
               else if i < |local| then local[i] else 0)
  }

  /** The effect of consuming `units` in order; nothing after an end-of-file unit is written. */
  function Replay(local: Bytes, units: seq<Unit>): Bytes
    decreases |units|
  {
    if units == [] || units[0].isEof then local
    else Replay(WriteAt(local, units[0].unitId * UNIT_LEN, units[0].body), units[1..])
  }

  /** `local` with the bytes of `file` from unit `u` on laid over it. */
  ghost function Overlay(local: Bytes, file: Bytes, u: nat): (r: Bytes)
    ensures u * UNIT_LEN >= |file| ==> r == local
  {
    if u * UNIT_LEN >= |file| then local
    else seq(Max(|local|, |file|), i requires 0 <= i < Max(|local|, |file|) =>
               if u * UNIT_LEN <= i < |file| then file[i]
               else if i < |local| then local[i] else 0)
  }

  /** Consuming the server's stream lays the server's file over the local one. */
  lemma {:induction false} ReplayStream(local: Bytes, file: Bytes, u: nat)
    ensures Replay(local, Stream(file, u)) == Overlay(local, file, u)
    decreases |file| - u * UNIT_LEN
  {
    var at := u * UNIT_LEN;
    if at < |file| {
      var units := Stream(file, u);
      var next := WriteAt(local, at, units[0].body);
      OverlayStep(local, file, u);
      ReplayHead(local, units);
      if |file| - at < UNIT_LEN {
        assert units[1..] == [EOF_UNIT];
        assert file[at..|file|] == file[at..];
      } else {
        assert units[1..] == Stream(file, u + 1);
        ReplayStream(next, file, u + 1);
      }
    }
  }

  lemma ReplayHead(local: Bytes, units: seq<Unit>)
    requires units != [] && !units[0].isEof
    ensures Replay(local, units) == Replay(WriteAt(local, units[0].unitId * UNIT_LEN, units[0].body), units[1..])
  {
  }

  /** Writing one unit is the first part of laying the rest of the file over. */
  lemma OverlayStep(local: Bytes, file: Bytes, u: nat)
    requires u * UNIT_LEN < |file|
    ensures Overlay(WriteAt(local, u * UNIT_LEN, file[u * UNIT_LEN..Min((u + 1) * UNIT_LEN, |file|)]), file, u + 1)
            == Overlay(local, file, u)
  {
  }

  /** A part of `units` without end-of-file is consumed first. */
  lemma {:induction false} ReplayConcat(local: Bytes, first: seq<Unit>, second: seq<Unit>)
    requires NoEof(first)
    ensures Replay(local, first + second) == Replay(Replay(local, first), second)
    decreases |first|
  {
    if first == [] {
      assert first + second == second;
    } else {
      assert (first + second)[1..] == first[1..] + second;
      ReplayConcat(WriteAt(local, first[0].unitId * UNIT_LEN, first[0].body), first[1..], second);
    }
  }

  /** Whatever follows an end-of-file unit is without effect. */
  lemma {:induction false} ReplayStopsAtEof(local: Bytes, first: seq<Unit>, second: seq<Unit>)
    requires !NoEof(first)
    ensures Replay(local, first + second) == Replay(local, first)
    decreases |first|
  {
    assert (first + second)[1..] == first[1..] + second;
    if !first[0].isEof {
      var i :| 0 <= i < |first| && first[i].isEof;
      assert first[1..][i - 1].isEof;
      ReplayStopsAtEof(WriteAt(local, first[0].unitId * UNIT_LEN, first[0].body), first[1..], second);
    }
  }
}
