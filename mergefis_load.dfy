// The byte work of mergefis_load2 (mergefis.c): choosing the command set
// of a device entry, converting its code and stored CRC into a FIS buffer,
// checking that CRC, patching the table from the category and the device,
// stamping the JEDEC id and the revision, and sealing the buffer with a
// fresh CRC. Finding the device and the command set in the XML stream is
// not part of this model: they arrive as values.
module MergeFisLoad {
  import opened Bytes
  import opened CLib
  import opened MergeFis

  // ---------------------------------------------------------------------
  // The command set of a device
  // ---------------------------------------------------------------------

  /** The value of the first of the attributes from index i on called name. */
  function FirstAttrIn(attrs: seq<Attr>, name: string, i: nat): (r: Option<string>)
    requires i <= |attrs|
    decreases |attrs| - i
  {
    if i == |attrs| then None
    else if attrs[i].name == name then Some(attrs[i].value)
    else FirstAttrIn(attrs, name, i + 1)
  }

  /** The first attribute of that name wins. */
  lemma {:induction false} FirstAttrIsFirst(attrs: seq<Attr>, name: string, i: nat)
    requires i <= |attrs|
    ensures FirstAttrIn(attrs, name, i).None? <==> forall j :: i <= j < |attrs| ==> attrs[j].name != name
    ensures FirstAttrIn(attrs, name, i).Some? ==>
              exists j :: i <= j < |attrs| && attrs[j].name == name && FirstAttrIn(attrs, name, i).value == attrs[j].value
                          && forall k :: i <= k < j ==> attrs[k].name != name
    decreases |attrs| - i
  {
    if i < |attrs| && attrs[i].name != name {
      FirstAttrIsFirst(attrs, name, i + 1);
    }
  }

  /** The name of the command set of a device: its own first "cmd"
      attribute, or else the last "cmd" attribute of its category. */
  function DeviceCmd(device: Elem, category: Option<Elem>): Option<string>
  {
    match FirstAttrIn(device.attrs, "cmd", 0)
    case Some(c) => Some(c)
    case None => if category.Some? then AttrValue(category.value, "cmd") else None
  }

  /** The search loop over the device's attributes stops at the first "cmd";
      the one over the category's does not, so its last "cmd" is kept. */
  method FindDeviceCmd(device: Elem, category: Option<Elem>) returns (deviceCmd: Option<string>)
    ensures deviceCmd == DeviceCmd(device, category)
  {
    deviceCmd := None;
    var i := 0;
    while i < |device.attrs| && deviceCmd.None?
      invariant 0 <= i <= |device.attrs|
      invariant deviceCmd.None? ==> FirstAttrIn(device.attrs, "cmd", 0) == FirstAttrIn(device.attrs, "cmd", i)
      invariant deviceCmd.Some? ==> deviceCmd == FirstAttrIn(device.attrs, "cmd", 0)
    {
      if device.attrs[i].name == "cmd" {
        deviceCmd := Some(device.attrs[i].value);
      }
      i := i + 1;
    }
    if category.Some? && deviceCmd.None? {
      var j := 0;
      while j < |category.value.attrs|
        invariant 0 <= j <= |category.value.attrs|
        invariant deviceCmd == AttrValueIn(category.value.attrs, "cmd", j)
      {
        if category.value.attrs[j].name == "cmd" {
          deviceCmd := Some(category.value.attrs[j].value);
        }
        j := j + 1;
      }
    }
  }

  /** The command set that mergefis_load2 goes on with, if it gets that far. */
  function CmdSetOf(device: Option<Elem>, category: Option<Elem>, cmdsets: map<string, Elem>): Option<Elem>
  {
    if device.None? then None
    else match DeviceCmd(device.value, category)
      case None => None
      case Some(c) => if c in cmdsets then Some(cmdsets[c]) else None
  }

  /** The "length", "checksum" and "code" texts of a command set; the last
      child of each name wins. */
  datatype CodeTexts = CodeTexts(lenStr: Option<string>, checksum: Option<string>, code: Option<string>)

  function TextsOf(cmdset: Elem): CodeTexts
  {
    CodeTexts(ElemValue(cmdset, "length"), ElemValue(cmdset, "checksum"), ElemValue(cmdset, "code"))
  }

  /** One pass over the children picks up all three texts. */
  method ReadCodeTexts(cmdset: Elem) returns (t: CodeTexts)
    ensures t == TextsOf(cmdset)
  {
    var lenStr, checksum, code: Option<string> := None, None, None;
    ghost var lastLen, lastSum, lastCode: Option<nat> := None, None, None;
    var i := 0;
    while i < |cmdset.children|
      invariant 0 <= i <= |cmdset.children|
      invariant lastLen == LastChildIn(cmdset.children, "length", i)
      invariant lastSum == LastChildIn(cmdset.children, "checksum", i)
      invariant lastCode == LastChildIn(cmdset.children, "code", i)
      invariant lenStr == match lastLen case None => None case Some(k) => cmdset.children[k].value
      invariant checksum == match lastSum case None => None case Some(k) => cmdset.children[k].value
      invariant code == match lastCode case None => None case Some(k) => cmdset.children[k].value
    {
      var child := cmdset.children[i];
      if child.name == "length" {
        lenStr, lastLen := child.value, Some(i);
      } else if child.name == "checksum" {
        checksum, lastSum := child.value, Some(i);
      } else if child.name == "code" {
        code, lastCode := child.value, Some(i);
      }
      i := i + 1;
    }
    t := CodeTexts(lenStr, checksum, code);
  }

  // ---------------------------------------------------------------------
  // The FIS buffer
  // ---------------------------------------------------------------------

  /** The buffer of len bytes after the 0xFF fill, the code from byte 0 on
      and the stored CRC from byte len - 4 on. */
  function LoadedCode(len: nat, code: string, checksum: string): (r: seq<byte>)
    requires 4 <= len && (|code| + 1) / 2 <= len && (|checksum| + 1) / 2 <= 4
    ensures |r| == len
  {
    Patch(Patch(seq(len, _ => 0xFF), 0, HexBytes(code)), len - 4, HexBytes(checksum))
  }

  /** The CRC-32 that guards a FIS: over all but its last four bytes. */
  function FisCrc(s: seq<byte>): u32
    requires |s| >= 4
  {
    Crc32(FIS_CHECKSUM_SEED, s[..|s| - 4]) as int
  }

  /** The last four bytes hold, little-endian, the CRC-32 of the rest. */
  predicate CrcStored(s: seq<byte>)
    requires |s| >= 4
  {
    FisCrc(s) == LE32At(s, |s| - 4)
  }

  /** The three JEDEC id bytes, manufacturer first. */
  function JedecBytes(jedec: u32): (r: seq<byte>)
    ensures |r| == 3
  {
    [(jedec / 0x1_0000) % 0x100, (jedec / 0x100) % 0x100, jedec % 0x100]
  }

  /** sscanf(s, "$Rev: %u $", &revision) with revision preset to
      0xFFFFFFFF: after the literal "$Rev:", white space and a decimal
      number (strtoul's rules, truncated to 32 bits) are read; without a
      number the preset stays. */
  function Revision(s: string): u32
  {
    if HasPrefix(s, "$Rev:") && StrToUL(s, 5).1 != 5 then ToU32(StrToUL(s, 5).0) else 0xFFFF_FFFF
  }

  /** The JEDEC id at bytes 4 to 6 and, when there is a revision string,
      its number at REVISION_POSITION. */
  function Stamped(s: seq<byte>, jedec: u32, revision: Option<string>): (r: seq<byte>)
    requires |s| >= 7 && (revision.Some? ==> |s| >= REVISION_POSITION + 4)
    ensures |r| == |s|
  {
    var t := Patch(s, MAJOR_REV_POSITION, JedecBytes(jedec));
    if revision.Some? then Patch(t, REVISION_POSITION, EncodeLE32(Revision(revision.value))) else t
  }

  /** The buffer with crc stored little-endian in its last four bytes. */
  function SealedWith(s: seq<byte>, crc: u32): (r: seq<byte>)
    requires |s| >= 4
    ensures |r| == |s|
  {
    Patch(s, |s| - 4, EncodeLE32(crc))
  }

  /** The buffer with the CRC-32 of all but its last four bytes stored there. */
  function Sealed(s: seq<byte>): (r: seq<byte>)
    requires |s| >= 4
    ensures |r| == |s|
  {
    SealedWith(s, FisCrc(s))
  }

  /** The table edited with the category's settings when there is one. */
  function EditedBy(s: seq<byte>, category: Option<Elem>): (r: seq<byte>)
    requires category.Some? ==> EditFits(|s|, category.value)
    ensures |r| == |s|
  {
    if category.Some? then EditedTable(s, category.value) else s
  }

  /** What mergefis_load2 demands on the path it takes: a length that
      stringToU4 can convert, a buffer that holds the code, a stored CRC
      of at most four bytes, and, once the CRC matches, room for the table
      of both containers, for the JEDEC id and for the revision. */
  predicate Load2Defined(device: Option<Elem>, category: Option<Elem>, cmdsets: map<string, Elem>,
                         revision: Option<string>)
  {
    match CmdSetOf(device, category, cmdsets)
    case None => true
    case Some(cs) =>
      var t := TextsOf(cs);
      t.lenStr.Some? && t.code.Some? ==>
        U4Fits(t.lenStr.value)
        && var len := U4OrZero(t.lenStr.value);
        4 <= len && (|t.code.value| + 1) / 2 <= len
        && t.checksum.Some? && (|t.checksum.value| + 1) / 2 <= 4
        && (CrcStored(LoadedCode(len, t.code.value, t.checksum.value)) ==>
              7 <= len && (revision.Some? ==> REVISION_POSITION + 4 <= len)
              && (category.Some? ==> EditFits(len, category.value))
              && EditFits(len, device.value))
  }

  /** The FIS that a successful mergefis_load2 hands back, from the
      buffer whose stored CRC matched. */
  function FinishedFis(loaded: seq<byte>, device: Elem, category: Option<Elem>, jedec: u32,
                       revision: Option<string>): (r: seq<byte>)
    requires 7 <= |loaded| && (revision.Some? ==> REVISION_POSITION + 4 <= |loaded|)
    requires (category.Some? ==> EditFits(|loaded|, category.value)) && EditFits(|loaded|, device)
    ensures |r| == |loaded|
  {
    Sealed(Stamped(EditedTable(EditedBy(loaded, category), device), jedec, revision))
  }

  /** mergefis_load2 from the device search on: the result code and, on
      MERGEFIS_OK, the FIS. */
  function Load2(device: Option<Elem>, category: Option<Elem>, cmdsets: map<string, Elem>, jedec: u32,
                 revision: Option<string>): (MergeFisResult, seq<byte>)
    requires Load2Defined(device, category, cmdsets, revision)
  {
    if device.None? then (JedecNotSupported, [])
    else match CmdSetOf(device, category, cmdsets)
      case None => (IncorrectXml, [])
      case Some(cs) =>
        var t := TextsOf(cs);
        if t.lenStr.None? || t.code.None? then (IncorrectXml, [])
        else
          var loaded := LoadedCode(U4OrZero(t.lenStr.value), t.code.value, t.checksum.value);
          if !CrcStored(loaded) then (CodeCorrupted, [])
          else (Ok, FinishedFis(loaded, device.value, category, jedec, revision))
  }

  // ---------------------------------------------------------------------
  // mergefis_load2
  // ---------------------------------------------------------------------

  /** Fills a fresh buffer of len bytes with 0xFF and converts the code and
      the stored CRC into it. */
  method LoadCode(len: nat, code: string, checksum: string) returns (data: array<byte>)
    requires 4 <= len && (|code| + 1) / 2 <= len && (|checksum| + 1) / 2 <= 4
    ensures fresh(data)
    ensures data[..] == LoadedCode(len, code, checksum)
  {
    data := new byte[len](_ => 0xFF);
    assert data[..] == seq(len, _ => 0xFF);
    HexStringToCharArray(code, data, 0);
    HexStringToCharArray(checksum, data, len - 4);
  }

  /** Compares the CRC of the buffer with the one stored in its last four bytes. */
  method CheckStoredCrc(data: array<byte>) returns (ok: bool)
    requires data.Length >= 4
    ensures ok == CrcStored(data[..])
  {
    var n := data.Length;
    var crc := LibCrcCrc32(FIS_CHECKSUM_SEED, data[..n - 4]);
    var crcWritten := data[n - 4] as int + 0x100 * data[n - 3] as int + 0x1_0000 * data[n - 2] as int
                      + 0x100_0000 * data[n - 1] as int;
    ok := crc as int == crcWritten;
  }

  /** Stores the JEDEC id and, when there is one, the revision number. */
  method StampFis(data: array<byte>, jedec: u32, revision: Option<string>)
    requires data.Length >= 7 && (revision.Some? ==> data.Length >= REVISION_POSITION + 4)
    modifies data
    ensures data[..] == Stamped(old(data[..]), jedec, revision)
  {
    ghost var s := data[..];
    data[4] := (jedec / 0x1_0000) % 0x100;
    data[5] := (jedec / 0x100) % 0x100;
    data[6] := jedec % 0x100;
    ghost var t := Patch(s, MAJOR_REV_POSITION, JedecBytes(jedec));
    assert data[..] == t by {
      assert forall k :: 0 <= k < data.Length && !(4 <= k < 7) ==> data[k] == s[k];
      assert t[4..7] == JedecBytes(jedec);
    }
    if revision.Some? {
      StoreLE32(data, REVISION_POSITION, Revision(revision.value));
    }
  }

  /** Stores the CRC of all but the last four bytes in those bytes. */
  method SealFis(data: array<byte>)
    requires data.Length >= 4
    modifies data
    ensures data[..] == Sealed(old(data[..]))
  {
    var n := data.Length;
    var crc := LibCrcCrc32(FIS_CHECKSUM_SEED, data[..n - 4]);
    StoreLE32(data, n - 4, crc as int);
  }

  /** mergefis_load2 once the device entry (and its category) and the
      command sets by name are known. */
  method MergeFisLoad2(device: Option<Elem>, category: Option<Elem>, cmdsets: map<string, Elem>,
                       jedec: u32, revision: Option<string>) returns (r: MergeFisResult, fis: seq<byte>)
    requires Load2Defined(device, category, cmdsets, revision)
    ensures (r, fis) == Load2(device, category, cmdsets, jedec, revision)
  {
    if device.None? {
      return JedecNotSupported, [];
    }
    var deviceCmd := FindDeviceCmd(device.value, category);
    if deviceCmd.None? || deviceCmd.value !in cmdsets {
      return IncorrectXml, [];
    }
    var cmdset := cmdsets[deviceCmd.value];
    var t := ReadCodeTexts(cmdset);
    if t.lenStr.None? || t.code.None? {
      return IncorrectXml, [];
    }
    var len := ReadU4(t.lenStr.value);
    var data := LoadCode(len, t.code.value, t.checksum.value);
    var ok := CheckStoredCrc(data);
    if !ok {
      return CodeCorrupted, [];
    }
    ghost var loaded := data[..];
    if category.Some? {
      EditTable2(data, category.value);
    }
    EditTable2(data, device.value);
    StampFis(data, jedec, revision);
    SealFis(data);
    r, fis := Ok, data[..];
    assert fis == FinishedFis(loaded, device.value, category, jedec, revision);
  }

  // ---------------------------------------------------------------------
  // Properties
  // ---------------------------------------------------------------------

  /** A sealed buffer carries the CRC of everything before its last four
      bytes, which it leaves as they were. */
  lemma SealedStoresCrc(s: seq<byte>)
    requires |s| >= 4
    ensures CrcStored(Sealed(s))
    ensures Sealed(s)[..|s| - 4] == s[..|s| - 4]
  {
    SealedWithKeeps(s, FisCrc(s));
  }

  /** Storing a CRC changes only the last four bytes. */
  lemma SealedWithKeeps(s: seq<byte>, crc: u32)
    requires |s| >= 4
    ensures SealedWith(s, crc)[..|s| - 4] == s[..|s| - 4]
    ensures LE32At(SealedWith(s, crc), |s| - 4) == crc
  {
    LE32OfPatch(s, |s| - 4, crc);
  }

  /** The three JEDEC bytes spell out the low 24 bits of the id. */
  lemma JedecBytesValue(jedec: u32)
    ensures var b := JedecBytes(jedec); 0x1_0000 * b[0] as int + 0x100 * b[1] as int + b[2] as int == jedec % 0x100_0000
  {
    ByteSplit(jedec);
  }

  /** The revision read from the rendering "$Rev: n $" of a 32-bit number n. */
  lemma RevisionOfRendering(n: nat)
    requires n < U32_MOD
    ensures Revision("$Rev: " + Dec(n) + " $") == n
  {
    var s := "$Rev: " + Dec(n) + " $";
    var e := 6 + |Dec(n)|;
    assert HasPrefix(s, "$Rev:") by {
      assert s[..5] == "$Rev:";
    }
    assert StrToUL(s, 5) == (n, e) by {
      assert s[6..e] == Dec(n);
      assert s[5] == ' ' && s[e] == ' ';
      StrToULAt(s, 6, n);
      StrToULSpace(s, 5);
    }
  }

  /** A string that does not begin with "$Rev:" leaves the preset revision. */
  lemma RevisionDefault(s: string)
    requires !HasPrefix(s, "$Rev:")
    ensures Revision(s) == 0xFFFF_FFFF
  {
  }

  /** On MERGEFIS_OK the FIS is as long as the length setting says and
      its last four bytes hold the CRC-32 of the rest. */
  lemma Load2OkSealed(device: Option<Elem>, category: Option<Elem>, cmdsets: map<string, Elem>,
                      jedec: u32, revision: Option<string>)
    requires Load2Defined(device, category, cmdsets, revision)
    ensures var (r, fis) := Load2(device, category, cmdsets, jedec, revision);
            r == Ok ==> |fis| >= 7 && CrcStored(fis)
  {
    var (r, fis) := Load2(device, category, cmdsets, jedec, revision);
    if r == Ok {
      var cs := CmdSetOf(device, category, cmdsets).value;
      var t := TextsOf(cs);
      var loaded := LoadedCode(U4OrZero(t.lenStr.value), t.code.value, t.checksum.value);
      var e := EditedTable(EditedBy(loaded, category), device.value);
      SealedStoresCrc(Stamped(e, jedec, revision));
    }
  }

  /** On MERGEFIS_OK, when the CRC does not overlap them, bytes 4 to 6
      hold the JEDEC id, manufacturer first. */
  lemma Load2OkJedec(device: Option<Elem>, category: Option<Elem>, cmdsets: map<string, Elem>,
                     jedec: u32, revision: Option<string>)
    requires Load2Defined(device, category, cmdsets, revision)
    ensures var (r, fis) := Load2(device, category, cmdsets, jedec, revision);
            r == Ok && |fis| >= 11 ==> fis[4..7] == JedecBytes(jedec)
  {
    var (r, fis) := Load2(device, category, cmdsets, jedec, revision);
    if r == Ok && |fis| >= 11 {
      var cs := CmdSetOf(device, category, cmdsets).value;
      var t := TextsOf(cs);
      var loaded := LoadedCode(U4OrZero(t.lenStr.value), t.code.value, t.checksum.value);
      var e := EditedTable(EditedBy(loaded, category), device.value);
      StampedJedec(e, jedec, revision, FisCrc(Stamped(e, jedec, revision)));
    }
  }

  /** On MERGEFIS_OK with a revision string, when the CRC lies past it,
      REVISION_POSITION holds the revision number. */
  lemma Load2OkRevision(device: Option<Elem>, category: Option<Elem>, cmdsets: map<string, Elem>,
                        jedec: u32, revision: Option<string>)
    requires Load2Defined(device, category, cmdsets, revision)
    ensures var (r, fis) := Load2(device, category, cmdsets, jedec, revision);
            r == Ok && revision.Some? && |fis| >= REVISION_POSITION + 8 ==>
              LE32At(fis, REVISION_POSITION) == Revision(revision.value)
  {
    var (r, fis) := Load2(device, category, cmdsets, jedec, revision);
    if r == Ok && revision.Some? && |fis| >= REVISION_POSITION + 8 {
      var cs := CmdSetOf(device, category, cmdsets).value;
      var t := TextsOf(cs);
      var loaded := LoadedCode(U4OrZero(t.lenStr.value), t.code.value, t.checksum.value);
      var e := EditedTable(EditedBy(loaded, category), device.value);
      StampedRevision(e, jedec, revision.value, FisCrc(Stamped(e, jedec, revision)));
    }
  }

  /** The error results: no device, no command set, no length or code, and
      a stored CRC that does not match the code. */
  lemma Load2Errors(device: Option<Elem>, category: Option<Elem>, cmdsets: map<string, Elem>,
                    jedec: u32, revision: Option<string>)
    requires Load2Defined(device, category, cmdsets, revision)
    ensures var (r, fis) := Load2(device, category, cmdsets, jedec, revision);
            (r == JedecNotSupported <==> device.None?)
            && (r == IncorrectXml <==>
                  device.Some? && (CmdSetOf(device, category, cmdsets).None?
                    || TextsOf(CmdSetOf(device, category, cmdsets).value).lenStr.None?
                    || TextsOf(CmdSetOf(device, category, cmdsets).value).code.None?))
            && (r != Ok ==> fis == [])
  {
  }

  /** MERGEFIS_CODE_CORRUPTED exactly when the command set is complete but
      the stored CRC does not match the converted code. */
  lemma Load2Corrupted(device: Option<Elem>, category: Option<Elem>, cmdsets: map<string, Elem>,
                       jedec: u32, revision: Option<string>)
    requires Load2Defined(device, category, cmdsets, revision)
    ensures Load2(device, category, cmdsets, jedec, revision).0 == CodeCorrupted <==>
              CmdSetOf(device, category, cmdsets).Some?
              && var t := TextsOf(CmdSetOf(device, category, cmdsets).value);
              t.lenStr.Some? && t.code.Some?
              && !CrcStored(LoadedCode(U4OrZero(t.lenStr.value), t.code.value, t.checksum.value))
  {
  }

  /** The JEDEC bytes are written over the version bytes that the sector
      getters test, so a loaded FIS reads as version 3 exactly when the
      manufacturer byte is 3 and the device type byte 0. */
  lemma Load2OkVersion(device: Option<Elem>, category: Option<Elem>, cmdsets: map<string, Elem>,
                       jedec: u32, revision: Option<string>)
    requires Load2Defined(device, category, cmdsets, revision)
    ensures var (r, fis) := Load2(device, category, cmdsets, jedec, revision);
            r == Ok && |fis| >= 11 ==>
              (IsVersion3(fis) <==> (jedec / 0x1_0000) % 0x100 == 3 && (jedec / 0x100) % 0x100 == 0)
  {
    Load2OkJedec(device, category, cmdsets, jedec, revision);
    var (r, fis) := Load2(device, category, cmdsets, jedec, revision);
    if r == Ok && |fis| >= 11 {
      JedecVersion(fis, jedec);
    }
  }

  /** Bytes 4 and 5 of a FIS that holds a JEDEC id are its manufacturer
      and device type bytes. */
  lemma JedecVersion(fis: seq<byte>, jedec: u32)
    requires |fis| >= 7 && fis[4..7] == JedecBytes(jedec)
    ensures IsVersion3(fis) <==> (jedec / 0x1_0000) % 0x100 == 3 && (jedec / 0x100) % 0x100 == 0
  {
    assert fis[4] == fis[4..7][0] && fis[5] == fis[4..7][1];
  }

  /** Stamping then storing a CRC leaves the JEDEC bytes in place when
      the CRC lies past them. */
  lemma StampedJedec(s: seq<byte>, jedec: u32, revision: Option<string>, crc: u32)
    requires |s| >= 11 && (revision.Some? ==> |s| >= REVISION_POSITION + 4)
    ensures SealedWith(Stamped(s, jedec, revision), crc)[4..7] == JedecBytes(jedec)
  {
    var b := JedecBytes(jedec);
    var t := Stamped(s, jedec, revision);
    assert t[4] == b[0] && t[5] == b[1] && t[6] == b[2] by {
      var p := Patch(s, MAJOR_REV_POSITION, b);
      assert p[4..7] == b;
      assert p[4] == b[0] && p[5] == b[1] && p[6] == b[2];
    }
    var u := SealedWith(t, crc);
    assert u[4] == t[4] && u[5] == t[5] && u[6] == t[6];
  }

  /** The same for the revision number. */
  lemma StampedRevision(s: seq<byte>, jedec: u32, revision: string, crc: u32)
    requires |s| >= REVISION_POSITION + 8
    ensures LE32At(SealedWith(Stamped(s, jedec, Some(revision)), crc), REVISION_POSITION) == Revision(revision)
  {
    var t := Stamped(s, jedec, Some(revision));
    var p := Patch(s, MAJOR_REV_POSITION, JedecBytes(jedec));
    LE32OfPatch(p, REVISION_POSITION, Revision(revision));
    var u := SealedWith(t, crc);
    assert u[REVISION_POSITION] == t[REVISION_POSITION] && u[REVISION_POSITION + 1] == t[REVISION_POSITION + 1]
        && u[REVISION_POSITION + 2] == t[REVISION_POSITION + 2] && u[REVISION_POSITION + 3] == t[REVISION_POSITION + 3];
  }
}
