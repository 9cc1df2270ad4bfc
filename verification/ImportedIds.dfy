/** Where looking a capture up by id goes wrong: ids that start other ids. */
module ImportedIds {
  import opened Text
  import opened Hexadecimal
  import opened LineCodec
  import opened Store
  import Har
  import Utf8

  /** The id of an imported entry as the log has it. */
  function LoggedId(prefix: string, index: nat): Bytes {
    Utf8.Encode(Har.EntryId(prefix, index))
  }

  lemma HexOfThousands()
    ensures PadTo4(Hex(0x1000)) == "1000" && PadTo4(Hex(0x1_0000)) == "1000" + "0"
  {
    assert Hex(0x1) == "1" && Hex(0x10) == "10" && Hex(0x100) == "100";
    assert Hex(0x1000) == Hex(0x100) + "0" && Hex(0x1_0000) == Hex(0x1000) + "0";
    assert "100" + "0" == "1000";
  }

  /** Past 65536 entries of one archive an id is the start of another. */
  lemma IdsNest(prefix: string)
    ensures Har.EntryId(prefix, 0x1000) < Har.EntryId(prefix, 0x1_0000)
    ensures LoggedId(prefix, 0x1000) <= LoggedId(prefix, 0x1_0000)
  {
    hide Hex, PadTo4, Utf8.Encode;
    HexOfThousands();
    assert prefix + ("1000" + "0") == prefix + "1000" + "0";
    Utf8.EncodeAppend(prefix + "1000", "0");
  }

  /** Once the later entry is in the log, asking for the earlier one's own id gives
      another capture. */
  lemma EarlierEntryIsMissed(prefix: string, cs: seq<LoggedCapture>, j: nat, k: nat)
    requires j < k < |cs| && forall i :: 0 <= i < k ==> cs[i] != cs[k]
    requires cs[j].id == LoggedId(prefix, 0x1_0000) && cs[k].id == LoggedId(prefix, 0x1000)
    ensures FirstMatch(cs[k].id, cs) != Some(cs[k])
  {
    hide LoggedId;
    IdsNest(prefix);
    FirstMatchIff(cs[k].id, cs, k);
    assert cs[k].id <= cs[j].id;
  }

  /** An ambiguous start of an id is not refused: the newer of two captures is given. */
  lemma AmbiguousStartGivesNewest(older: LoggedCapture, newer: LoggedCapture, start: Bytes)
    requires start <= older.id && start <= newer.id && older != newer
    ensures FirstMatch(start, [newer, older]) == Some(newer) != Some(older)
  {
    FirstMatchIff(start, [newer, older], 0);
  }
}
