/** The configuration tables that name every NVRAM file: the common lids, then the custom ones. */
module Config {
  import opened Bytes

  const SLASH: byte := 0x2F

  datatype DefaultType = MULTIPLE_DEFUALT_REC | SIGNLE_DEFUALT_REC | DEFAULT_ZERO | DEFAULT_FF

  /** A TCFG_FILE. `dataReset` says whether a version mismatch resets or converts the file. */
  datatype CfgEntry = CfgEntry(
    path: bytes,
    ver: bytes,
    recSize: nat,
    recNum: nat,
    defaultType: DefaultType,
    defaultValue: Option<bytes>,
    dataReset: bool)
  {
    /** The path is a C string in a 70-byte field and the version fills its field. */
    predicate Valid() {
      |path| < 70 && 0 !in path && |ver| == 4
    }
  }

  datatype Tables = Tables(common: seq<CfgEntry>, custom: seq<CfgEntry>) {
    predicate Valid() {
      |common| > 0 && forall lid: nat | lid < Count() :: Entry(lid).Valid()
    }

    function Count(): nat { |common| + |custom| }

    /** NVM_GetCfgFileTable and the subtraction of the first custom lid. */
    function Entry(lid: nat): CfgEntry
      requires lid < Count()
    {
      if lid < |common| then common[lid] else custom[lid - |common|]
    }
  }

  /** The part of a path after its last slash. */
  function BaseName(path: bytes): (name: Option<bytes>) {
    if path == [] then None
    else if path[|path| - 1] == SLASH then Some([])
    else
      match BaseName(path[..|path| - 1])
      case None => None
      case Some(b) => Some(b + [path[|path| - 1]])
  }

  /** There is a base name exactly when there is a slash, and it is what follows the last one. */
  lemma {:induction false} BaseNameFollowsLastSlash(path: bytes)
    ensures BaseName(path).None? <==> SLASH !in path
    ensures BaseName(path).Some? ==>
              var b := BaseName(path).value;
              SLASH !in b && |b| < |path| && path[|path| - |b| - 1] == SLASH && b == path[|path| - |b|..]
  {
    if path != [] && path[|path| - 1] != SLASH {
      var n := |path| - 1;
      BaseNameFollowsLastSlash(path[..n]);
      assert path == path[..n] + [path[n]];
    }
  }

  /** The name that identifies an entry's record: empty when its path has no slash. */
  function RecordName(e: CfgEntry): (name: bytes)
    requires e.Valid()
    ensures |name| < 70 && 0 !in name
  {
    BaseNameFollowsLastSlash(e.path);
    match BaseName(e.path)
    case Some(b) => b
    case None => []
  }
}
