/** Entities and constants shared by the download modules (moCloudUtilsTypes.h, cliData.h). */
module CloudTypes {

  type Byte = b: int | 0 <= b < 256
  type Bytes = seq<Byte>

  /** Bytes in one download unit. */
  const UNIT_LEN: nat := 1024

  /** How many files may be downloaded at the same time; also the size of the file-id pool. */
  const TASK_MAX_NUM: nat := 8

  type FileId = i: nat | i < TASK_MAX_NUM

  /** The name of a local file. */
  type Path = string

  /** The client scales a recorded unit by the size of the unit-length constant, where the length
      itself was meant. */
  const OFFSET_SCALE: nat := 4

  /** A file on the server is named by its type and its name. */
  datatype Key = Key(filetype: int, filename: string)

  /** What one header and its body carry: `body` holds exactly `bodyLen` bytes. */
  datatype Unit = Unit(isEof: bool, unitId: nat, body: Bytes)

  /** A header and its body on the data socket, taken as one message. */
  datatype Message = Message(fileId: FileId, unit: Unit)

  const EOF_UNIT := Unit(true, 0, [])

  function Min(a: int, b: int): int { if a <= b then a else b }

  function Max(a: int, b: int): int { if a <= b then b else a }

  /** The numbers below `n`. */
  function Below(n: nat): (s: set<nat>)
    ensures forall i :: i in s <==> 0 <= i < n
  {
    if n == 0 then {} else Below(n - 1) + {n - 1}
  }
}
