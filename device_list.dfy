/**
 * Parsing of the device enumeration table: each entry is "file;model" (or
 * just "file"), and the table ends at its first null entry.
 */
module DeviceList {
  import opened Native

  /** One enumerated device: the name to open it by, and its model name if the entry had one. */
  datatype DeviceName = DeviceName(fileName: string, modelName: Option<string>)

  const DELIMITER: char := ';'

  /** String.IndexOf(char): the first position of `c` in `s`, or -1 when it does not occur. */
  function IndexOf(s: string, c: char): (d: int)
    ensures -1 <= d < |s|
    ensures d == -1 <==> c !in s
    ensures d >= 0 ==> s[d] == c && c !in s[..d]
  {
    if |s| == 0 then -1
    else if s[0] == c then 0
    else
      var t := IndexOf(s[1..], c);
      if t == -1 then -1
      else
        assert s[..t + 1] == [s[0]] + s[1..][..t];
        t + 1
  }

  /**
   * Splits one entry at its first ';': the part before it is the file
   * name, the rest the model name. Without a ';' the whole entry is the
   * file name and there is no model name.
   */
  function ParseEntry(s: string): (dn: DeviceName)
    ensures DELIMITER !in dn.fileName
    ensures dn.modelName.None? <==> DELIMITER !in s
    ensures dn.modelName.None? ==> dn.fileName == s
    ensures dn.modelName.Some? ==> dn.fileName + [DELIMITER] + dn.modelName.value == s
  {
    var d := IndexOf(s, DELIMITER);
    if d == -1 then DeviceName(s, None)
    else
      assert s == s[..d] + [DELIMITER] + s[d + 1..];
      DeviceName(s[..d], Some(s[d + 1..]))
  }

  /** The entry text a device name is listed under. */
  function JoinEntry(dn: DeviceName): string
  {
    match dn.modelName
    case None => dn.fileName
    case Some(m) => dn.fileName + [DELIMITER] + m
  }

  /** Parsing loses nothing: joining the parts gives back the entry. */
  lemma JoinParsed(s: string)
    ensures JoinEntry(ParseEntry(s)) == s
  {
  }

  /** The first ';' of a joined entry is the one that was inserted when the file name has none. */
  lemma IndexOfAfterPrefix(f: string, rest: string)
    requires DELIMITER !in f
    ensures IndexOf(f + [DELIMITER] + rest, DELIMITER) == |f|
  {
    var s := f + [DELIMITER] + rest;
    assert s[|f|] == DELIMITER;
    assert s[..|f|] == f;
  }

  /** Every device name whose file name has no ';' is what its entry parses back to. */
  lemma ParseJoined(dn: DeviceName)
    requires DELIMITER !in dn.fileName
    ensures ParseEntry(JoinEntry(dn)) == dn
  {
    match dn.modelName
    case None =>
    case Some(m) =>
      IndexOfAfterPrefix(dn.fileName, m);
      var s := JoinEntry(dn);
      assert s[..|dn.fileName|] == dn.fileName;
      assert s[|dn.fileName| + 1..] == m;
  }

  /** The number of entries before the first null one (all of them when there is none). */
  function NullIndex(names: seq<Option<string>>): (n: nat)
    ensures n <= |names|
    ensures forall i :: 0 <= i < n ==> names[i].Some?
    ensures n < |names| ==> names[n].None?
  {
    if |names| == 0 || names[0].None? then 0
    else 1 + NullIndex(names[1..])
  }

  /** Whatever follows the first null entry has no effect on where the table ends. */
  lemma {:induction false} NullIndexIgnoresTail(names: seq<Option<string>>, tail: seq<Option<string>>)
    requires None in names
    ensures NullIndex(names + tail) == NullIndex(names)
  {
    if names[0].Some? {
      assert (names + tail)[1..] == names[1..] + tail;
      NullIndexIgnoresTail(names[1..], tail);
    }
  }
}
