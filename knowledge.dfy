/** The encoding-independent knowledge state (source/src/knowledge.cpp). */
module Knowledge {
  import opened Text

  /** The supported text encodings, in the order of their indexes. */
  datatype EncodeType = EucJp | ShiftJis

  /** `Knowledge::ENCODE_TYPE_STR_` indexed by the encode type. */
  function EncodeStr(t: EncodeType): (r: Bytes)
    ensures t == EucJp ==> r == "EUC-JP"
    ensures t == ShiftJis ==> r == "SHIFT-JIS"
  {
    match t
    case EucJp => "EUC-JP"
    case ShiftJis => "SHIFT-JIS"
  }

  /** The knowledge session state shared by every analyzer back end.
      `onEncodeTypeChange` is virtual in the source; its one override in this
      system replaces the character-type object by one for the new encoding, and
      `ctype` and `ctypeRebuilds` record that object and how often it was rebuilt. */
  class Knowledge {
    var encodeType: EncodeType
    var systemDictPath: Bytes
    var userDictNames: seq<Bytes>
    var ctype: Option<EncodeType>
    var ctypeRebuilds: nat

    /** A new session uses EUC-JP and has no user dictionary. */
    constructor ()
      ensures encodeType == EucJp && systemDictPath == [] && userDictNames == []
      ensures ctype == None && ctypeRebuilds == 0
    {
      encodeType := EucJp;
      systemDictPath := [];
      userDictNames := [];
      ctype := None;
      ctypeRebuilds := 0;
    }

    function GetEncodeType(): (t: EncodeType)
      reads this
      ensures t == encodeType
    {
      encodeType
    }

    /** The hook run when the encode type changes: a character-type object for `t`. */
    method OnEncodeTypeChange(t: EncodeType)
      modifies this`ctype, this`ctypeRebuilds
      ensures ctype == Some(t) && ctypeRebuilds == old(ctypeRebuilds) + 1
    {
      ctype := Some(t);
      ctypeRebuilds := ctypeRebuilds + 1;
    }

    /** Sets the encode type; the hook runs exactly when the type changes. */
    method SetEncodeType(t: EncodeType)
      modifies this
      ensures GetEncodeType() == t
      ensures systemDictPath == old(systemDictPath) && userDictNames == old(userDictNames)
      ensures old(encodeType) != t ==> ctype == Some(t) && ctypeRebuilds == old(ctypeRebuilds) + 1
      ensures old(encodeType) == t ==> ctype == old(ctype) && ctypeRebuilds == old(ctypeRebuilds)
    {
      if encodeType != t {
        encodeType := t;
        OnEncodeTypeChange(t);
      }
    }

    /** Replaces the system-dictionary path. */
    method SetSystemDict(dirPath: Bytes)
      modifies this`systemDictPath
      ensures systemDictPath == dirPath
    {
      systemDictPath := dirPath;
    }

    /** Appends one user-dictionary file name; earlier names keep their order. */
    method AddUserDict(fileName: Bytes)
      modifies this`userDictNames
      ensures userDictNames == old(userDictNames) + [fileName]
      ensures |userDictNames| == |old(userDictNames)| + 1
      ensures userDictNames[..|old(userDictNames)|] == old(userDictNames)
    {
      userDictNames := userDictNames + [fileName];
    }
  }
}
