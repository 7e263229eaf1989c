/** The shipped encoder and decoder symbol tables of the three parameter sets. */
module RansTables {
  import opened Rans
  import opened Arith

  const ESYMS_HINT_2: seq<EncSymbol> := [
    EncSymbol(801112064, 0xAB8F69E3, 0, 642, 8),
    EncSymbol(515899392, 0x85340854, 382, 778, 7),
    EncSymbol(136314880, 0xFC0FC0FD, 628, 959, 6),
    EncSymbol(14680064, 0x92492493, 693, 1017, 2),
    EncSymbol(2097152, 0xFFFFFFFF, 1723, 1023, 0),
    EncSymbol(2097152, 0xFFFFFFFF, 1724, 1023, 0),
    EncSymbol(2097152, 0xFFFFFFFF, 1725, 1023, 0),
    EncSymbol(2097152, 0xFFFFFFFF, 1726, 1023, 0),
    EncSymbol(2097152, 0xFFFFFFFF, 1727, 1023, 0),
    EncSymbol(2097152, 0xFFFFFFFF, 1728, 1023, 0),
    EncSymbol(14680064, 0x92492493, 706, 1017, 2),
    EncSymbol(136314880, 0xFC0FC0FD, 713, 959, 6),
    EncSymbol(515899392, 0x85340854, 778, 778, 7)
  ]

  const DSYMS_HINT_2: Table := [
    DecSymbol(0, 382), DecSymbol(382, 246), DecSymbol(628, 65), DecSymbol(693, 7), DecSymbol(700, 1),
    DecSymbol(701, 1), DecSymbol(702, 1), DecSymbol(703, 1), DecSymbol(704, 1), DecSymbol(705, 1),
    DecSymbol(706, 7), DecSymbol(713, 65), DecSymbol(778, 246)
  ]

  const ESYMS_HIGH_2: seq<EncSymbol> := [
    EncSymbol(2097152, 0xFFFFFFFF, 1023, 1023, 0),
    EncSymbol(2097152, 0xFFFFFFFF, 1024, 1023, 0),
    EncSymbol(2097152, 0xFFFFFFFF, 1025, 1023, 0),
    EncSymbol(10485760, 0xCCCCCCCD, 3, 1019, 2),
    EncSymbol(121634816, 0x8D3DCB09, 8, 966, 5),
    EncSymbol(515899392, 0x85340854, 66, 778, 7),
    EncSymbol(834666496, 0xA4A9CF1E, 312, 626, 8),
    EncSymbol(517996544, 0x84A9F9C9, 710, 777, 7),
    EncSymbol(123731968, 0x8AD8F2FC, 957, 965, 5),
    EncSymbol(10485760, 0xCCCCCCCD, 1016, 1019, 2),
    EncSymbol(2097152, 0xFFFFFFFF, 2044, 1023, 0),
    EncSymbol(2097152, 0xFFFFFFFF, 2045, 1023, 0),
    EncSymbol(2097152, 0xFFFFFFFF, 2046, 1023, 0)
  ]

  const DSYMS_HIGH_2: Table := [
    DecSymbol(0, 1), DecSymbol(1, 1), DecSymbol(2, 1), DecSymbol(3, 5), DecSymbol(8, 58),
    DecSymbol(66, 246), DecSymbol(312, 398), DecSymbol(710, 247), DecSymbol(957, 59), DecSymbol(1016, 5),
    DecSymbol(1021, 1), DecSymbol(1022, 1), DecSymbol(1023, 1)
  ]

  const ESYMS_HINT_3: seq<EncSymbol> := [
    EncSymbol(557842432, 0xF6603D99, 0, 758, 8),
    EncSymbol(446693376, 0x99D722DB, 266, 811, 7),
    EncSymbol(236978176, 0x90FDBC0A, 479, 911, 6),
    EncSymbol(83886080, 0xCCCCCCCD, 592, 984, 5),
    EncSymbol(18874368, 0xE38E38E4, 632, 1015, 3),
    EncSymbol(2097152, 0xFFFFFFFF, 1664, 1023, 0),
    EncSymbol(2097152, 0xFFFFFFFF, 1665, 1023, 0),
    EncSymbol(2097152, 0xFFFFFFFF, 1666, 1023, 0),
    EncSymbol(2097152, 0xFFFFFFFF, 1667, 1023, 0),
    EncSymbol(2097152, 0xFFFFFFFF, 1668, 1023, 0),
    EncSymbol(2097152, 0xFFFFFFFF, 1669, 1023, 0),
    EncSymbol(2097152, 0xFFFFFFFF, 1670, 1023, 0),
    EncSymbol(2097152, 0xFFFFFFFF, 1671, 1023, 0),
    EncSymbol(18874368, 0xE38E38E4, 649, 1015, 3),
    EncSymbol(83886080, 0xCCCCCCCD, 658, 984, 5),
    EncSymbol(236978176, 0x90FDBC0A, 698, 911, 6),
    EncSymbol(446693376, 0x99D722DB, 811, 811, 7)
  ]

  const DSYMS_HINT_3: Table := [
    DecSymbol(0, 266), DecSymbol(266, 213), DecSymbol(479, 113), DecSymbol(592, 40), DecSymbol(632, 9),
    DecSymbol(641, 1), DecSymbol(642, 1), DecSymbol(643, 1), DecSymbol(644, 1), DecSymbol(645, 1),
    DecSymbol(646, 1), DecSymbol(647, 1), DecSymbol(648, 1), DecSymbol(649, 9), DecSymbol(658, 40),
    DecSymbol(698, 113), DecSymbol(811, 213)
  ]

  const ESYMS_HIGH_3: seq<EncSymbol> := [
    EncSymbol(2097152, 0xFFFFFFFF, 1023, 1023, 0),
    EncSymbol(2097152, 0xFFFFFFFF, 1024, 1023, 0),
    EncSymbol(2097152, 0xFFFFFFFF, 1025, 1023, 0),
    EncSymbol(2097152, 0xFFFFFFFF, 1026, 1023, 0),
    EncSymbol(16777216, 0x80000000, 4, 1016, 2),
    EncSymbol(77594624, 0xDD67C8A7, 12, 987, 5),
    EncSymbol(234881024, 0x92492493, 49, 912, 6),
    EncSymbol(452984832, 0x97B425EE, 161, 808, 7),
    EncSymbol(564133888, 0xF3A0D52D, 377, 755, 8),
    EncSymbol(452984832, 0x97B425EE, 646, 808, 7),
    EncSymbol(234881024, 0x92492493, 862, 912, 6),
    EncSymbol(79691776, 0xD79435E6, 974, 986, 5),
    EncSymbol(16777216, 0x80000000, 1012, 1016, 2),
    EncSymbol(2097152, 0xFFFFFFFF, 2043, 1023, 0),
    EncSymbol(2097152, 0xFFFFFFFF, 2044, 1023, 0),
    EncSymbol(2097152, 0xFFFFFFFF, 2045, 1023, 0),
    EncSymbol(2097152, 0xFFFFFFFF, 2046, 1023, 0)
  ]

  const DSYMS_HIGH_3: Table := [
    DecSymbol(0, 1), DecSymbol(1, 1), DecSymbol(2, 1), DecSymbol(3, 1), DecSymbol(4, 8),
    DecSymbol(12, 37), DecSymbol(49, 112), DecSymbol(161, 216), DecSymbol(377, 269), DecSymbol(646, 216),
    DecSymbol(862, 112), DecSymbol(974, 38), DecSymbol(1012, 8), DecSymbol(1020, 1), DecSymbol(1021, 1),
    DecSymbol(1022, 1), DecSymbol(1023, 1)
  ]

  const ESYMS_HINT_5_LOW: seq<EncSymbol> := [
    EncSymbol(255852544, 0x864B8A7E, 0, 902, 6),
    EncSymbol(245366784, 0x8C08C08D, 122, 907, 6),
    EncSymbol(213909504, 0xA0A0A0A1, 239, 922, 6),
    EncSymbol(169869312, 0xCA4587E7, 341, 943, 6),
    EncSymbol(123731968, 0x8AD8F2FC, 422, 965, 5),
    EncSymbol(81788928, 0xD20D20D3, 481, 985, 5),
    EncSymbol(48234496, 0xB21642C9, 520, 1001, 4),
    EncSymbol(27262976, 0x9D89D89E, 543, 1011, 3),
    EncSymbol(12582912, 0xAAAAAAAB, 556, 1018, 2),
    EncSymbol(6291456, 0xAAAAAAAB, 562, 1021, 1),
    EncSymbol(2097152, 0xFFFFFFFF, 1588, 1023, 0),
    EncSymbol(2097152, 0xFFFFFFFF, 1589, 1023, 0),
    EncSymbol(2097152, 0xFFFFFFFF, 1590, 1023, 0),
    EncSymbol(2097152, 0xFFFFFFFF, 1591, 1023, 0),
    EncSymbol(2097152, 0xFFFFFFFF, 1592, 1023, 0),
    EncSymbol(2097152, 0xFFFFFFFF, 1593, 1023, 0),
    EncSymbol(2097152, 0xFFFFFFFF, 1594, 1023, 0)
  ]

  const DSYMS_HINT_5_LOW: Table := [
    DecSymbol(0, 122), DecSymbol(122, 117), DecSymbol(239, 102), DecSymbol(341, 81), DecSymbol(422, 59),
    DecSymbol(481, 39), DecSymbol(520, 23), DecSymbol(543, 13), DecSymbol(556, 6), DecSymbol(562, 3),
    DecSymbol(565, 1), DecSymbol(566, 1), DecSymbol(567, 1), DecSymbol(568, 1), DecSymbol(569, 1),
    DecSymbol(570, 1), DecSymbol(571, 1)
  ]

  const ESYMS_HINT_5_UP: seq<EncSymbol> := [
    EncSymbol(2097152, 0xFFFFFFFF, 1595, 1023, 0),
    EncSymbol(2097152, 0xFFFFFFFF, 1596, 1023, 0),
    EncSymbol(2097152, 0xFFFFFFFF, 1597, 1023, 0),
    EncSymbol(2097152, 0xFFFFFFFF, 1598, 1023, 0),
    EncSymbol(2097152, 0xFFFFFFFF, 1599, 1023, 0),
    EncSymbol(2097152, 0xFFFFFFFF, 1600, 1023, 0),
    EncSymbol(2097152, 0xFFFFFFFF, 1601, 1023, 0),
    EncSymbol(6291456, 0xAAAAAAAB, 579, 1021, 1),
    EncSymbol(12582912, 0xAAAAAAAB, 582, 1018, 2),
    EncSymbol(27262976, 0x9D89D89E, 588, 1011, 3),
    EncSymbol(50331648, 0xAAAAAAAB, 601, 1000, 4),
    EncSymbol(81788928, 0xD20D20D3, 625, 985, 5),
    EncSymbol(123731968, 0x8AD8F2FC, 664, 965, 5),
    EncSymbol(169869312, 0xCA4587E7, 723, 943, 6),
    EncSymbol(213909504, 0xA0A0A0A1, 804, 922, 6),
    EncSymbol(247463936, 0x8AD8F2FC, 906, 906, 6)
  ]

  const DSYMS_HINT_5_UP: Table := [
    DecSymbol(572, 1), DecSymbol(573, 1), DecSymbol(574, 1), DecSymbol(575, 1), DecSymbol(576, 1),
    DecSymbol(577, 1), DecSymbol(578, 1), DecSymbol(579, 3), DecSymbol(582, 6), DecSymbol(588, 13),
    DecSymbol(601, 24), DecSymbol(625, 39), DecSymbol(664, 59), DecSymbol(723, 81), DecSymbol(804, 102),
    DecSymbol(906, 118)
  ]

  const ESYMS_HINT_5: seq<EncSymbol> := ESYMS_HINT_5_LOW + ESYMS_HINT_5_UP
  const DSYMS_HINT_5: Table := DSYMS_HINT_5_LOW + DSYMS_HINT_5_UP

  const ESYMS_HIGH_5: seq<EncSymbol> := [
    EncSymbol(2097152, 0xFFFFFFFF, 1023, 1023, 0),
    EncSymbol(2097152, 0xFFFFFFFF, 1024, 1023, 0),
    EncSymbol(2097152, 0xFFFFFFFF, 1025, 1023, 0),
    EncSymbol(2097152, 0xFFFFFFFF, 1026, 1023, 0),
    EncSymbol(4194304, 0x80000000, 4, 1022, 0),
    EncSymbol(27262976, 0x9D89D89E, 6, 1011, 3),
    EncSymbol(100663296, 0xAAAAAAAB, 19, 976, 5),
    EncSymbol(247463936, 0x8AD8F2FC, 67, 906, 6),
    EncSymbol(427819008, 0xA0A0A0A1, 185, 820, 7),
    EncSymbol(513802240, 0x85BF3762, 389, 779, 7),
    EncSymbol(427819008, 0xA0A0A0A1, 634, 820, 7),
    EncSymbol(247463936, 0x8AD8F2FC, 838, 906, 6),
    EncSymbol(100663296, 0xAAAAAAAB, 956, 976, 5),
    EncSymbol(29360128, 0x92492493, 1004, 1010, 3),
    EncSymbol(4194304, 0x80000000, 1018, 1022, 0),
    EncSymbol(2097152, 0xFFFFFFFF, 2043, 1023, 0),
    EncSymbol(2097152, 0xFFFFFFFF, 2044, 1023, 0),
    EncSymbol(2097152, 0xFFFFFFFF, 2045, 1023, 0),
    EncSymbol(2097152, 0xFFFFFFFF, 2046, 1023, 0)
  ]

  const DSYMS_HIGH_5: Table := [
    DecSymbol(0, 1), DecSymbol(1, 1), DecSymbol(2, 1), DecSymbol(3, 1), DecSymbol(4, 2),
    DecSymbol(6, 13), DecSymbol(19, 48), DecSymbol(67, 118), DecSymbol(185, 204), DecSymbol(389, 245),
    DecSymbol(634, 204), DecSymbol(838, 118), DecSymbol(956, 48), DecSymbol(1004, 14), DecSymbol(1018, 2),
    DecSymbol(1020, 1), DecSymbol(1021, 1), DecSymbol(1022, 1), DecSymbol(1023, 1)
  ]

  ghost predicate EntryOk(esyms: seq<EncSymbol>, dsyms: Table, s: nat)
    requires |esyms| == |dsyms| && s < |dsyms|
  {
    ValidSymbol(dsyms[s]) && Represents(esyms[s], dsyms[s])
  }

  /** The decoder's ranges tile the slots and every encoder symbol does what the division does for its range. */
  ghost predicate Consistent(esyms: seq<EncSymbol>, dsyms: Table) {
    ValidTable(dsyms) && |esyms| == |dsyms| && forall s | 0 <= s < |dsyms| :: EntryOk(esyms, dsyms, s)
  }

  /** Tiling up to end and the entry format, checked entry by entry from the end of a table. */
  predicate Checked(esyms: seq<EncSymbol>, dsyms: Table, s: nat, end: nat)
    requires |esyms| == |dsyms|
    decreases |dsyms| - s
  {
    s >= |dsyms|
    || (ReciprocalEntry(esyms[s], dsyms[s])
        && dsyms[s].start + dsyms[s].freq == (if s + 1 < |dsyms| then dsyms[s + 1].start else end)
        && Checked(esyms, dsyms, s + 1, end))
  }

  lemma SmallPowers()
    ensures Pow(2, 0) == 1 && Pow(2, 1) == 2 && Pow(2, 2) == 4 && Pow(2, 3) == 8 && Pow(2, 4) == 16
    ensures Pow(2, 5) == 32 && Pow(2, 6) == 64 && Pow(2, 7) == 128 && Pow(2, 8) == 256 && Pow(2, 9) == 512
  {
  }

  /** A checked table is one the coder can be run with. */
  lemma {:induction false} CheckedEntries(esyms: seq<EncSymbol>, dsyms: Table, s: nat, end: nat)
    requires |esyms| == |dsyms| && s <= |dsyms| && Checked(esyms, dsyms, s, end)
    ensures Tiles(dsyms[s..], if s < |dsyms| then dsyms[s].start else end, end)
    ensures forall i | s <= i < |dsyms| :: EntryOk(esyms, dsyms, i)
    decreases |dsyms| - s
  {
    if s < |dsyms| {
      CheckedEntries(esyms, dsyms, s + 1, end);
      EntryRepresents(esyms[s], dsyms[s]);
      assert EntryOk(esyms, dsyms, s);
      assert dsyms[s..][1..] == dsyms[s + 1..];
    }
  }

  lemma CheckedConsistent(esyms: seq<EncSymbol>, dsyms: Table)
    requires |esyms| == |dsyms| > 0 && dsyms[0].start == 0 && Checked(esyms, dsyms, 0, SCALE)
    ensures Consistent(esyms, dsyms)
  {
    CheckedEntries(esyms, dsyms, 0, SCALE);
    assert dsyms[0..] == dsyms;
  }

  lemma {:induction false} TilesAppend(low: Table, up: Table, start: nat, middle: nat, end: nat)
    requires Tiles(low, start, middle) && Tiles(up, middle, end)
    ensures Tiles(low + up, start, end)
  {
    if low == [] {
      assert low + up == up;
    } else {
      TilesAppend(low[1..], up, start + low[0].freq, middle, end);
      assert (low + up)[1..] == low[1..] + up;
    }
  }

  lemma ConsistentAppend(esymsLow: seq<EncSymbol>, low: Table, esymsUp: seq<EncSymbol>, up: Table, middle: nat)
    requires |esymsLow| == |low| > 0 && |esymsUp| == |up| > 0 && low[0].start == 0 && up[0].start == middle
    requires Checked(esymsLow, low, 0, middle) && Checked(esymsUp, up, 0, SCALE)
    ensures Consistent(esymsLow + esymsUp, low + up)
  {
    CheckedEntries(esymsLow, low, 0, middle);
    CheckedEntries(esymsUp, up, 0, SCALE);
    assert low[0..] == low && up[0..] == up;
    TilesAppend(low, up, 0, middle, SCALE);
    forall s | 0 <= s < |low + up|
      ensures EntryOk(esymsLow + esymsUp, low + up, s)
    {
      if s < |low| {
        assert EntryOk(esymsLow, low, s);
      } else {
        assert EntryOk(esymsUp, up, s - |low|);
      }
    }
  }

  lemma CheckedHint2()
    ensures |ESYMS_HINT_2| == |DSYMS_HINT_2| && Checked(ESYMS_HINT_2, DSYMS_HINT_2, 0, SCALE)
  {
    SmallPowers();
    assert Checked(ESYMS_HINT_2, DSYMS_HINT_2, 11, SCALE);
    assert Checked(ESYMS_HINT_2, DSYMS_HINT_2, 9, SCALE);
    assert Checked(ESYMS_HINT_2, DSYMS_HINT_2, 7, SCALE);
    assert Checked(ESYMS_HINT_2, DSYMS_HINT_2, 5, SCALE);
    assert Checked(ESYMS_HINT_2, DSYMS_HINT_2, 3, SCALE);
    assert Checked(ESYMS_HINT_2, DSYMS_HINT_2, 1, SCALE);
  }

  lemma CheckedHigh2()
    ensures |ESYMS_HIGH_2| == |DSYMS_HIGH_2| && Checked(ESYMS_HIGH_2, DSYMS_HIGH_2, 0, SCALE)
  {
    SmallPowers();
    assert Checked(ESYMS_HIGH_2, DSYMS_HIGH_2, 11, SCALE);
    assert Checked(ESYMS_HIGH_2, DSYMS_HIGH_2, 9, SCALE);
    assert Checked(ESYMS_HIGH_2, DSYMS_HIGH_2, 7, SCALE);
    assert Checked(ESYMS_HIGH_2, DSYMS_HIGH_2, 5, SCALE);
    assert Checked(ESYMS_HIGH_2, DSYMS_HIGH_2, 3, SCALE);
    assert Checked(ESYMS_HIGH_2, DSYMS_HIGH_2, 1, SCALE);
  }

  lemma CheckedHint3()
    ensures |ESYMS_HINT_3| == |DSYMS_HINT_3| && Checked(ESYMS_HINT_3, DSYMS_HINT_3, 0, SCALE)
  {
    SmallPowers();
    assert Checked(ESYMS_HINT_3, DSYMS_HINT_3, 15, SCALE);
    assert Checked(ESYMS_HINT_3, DSYMS_HINT_3, 13, SCALE);
    assert Checked(ESYMS_HINT_3, DSYMS_HINT_3, 11, SCALE);
    assert Checked(ESYMS_HINT_3, DSYMS_HINT_3, 9, SCALE);
    assert Checked(ESYMS_HINT_3, DSYMS_HINT_3, 7, SCALE);
    assert Checked(ESYMS_HINT_3, DSYMS_HINT_3, 5, SCALE);
    assert Checked(ESYMS_HINT_3, DSYMS_HINT_3, 3, SCALE);
    assert Checked(ESYMS_HINT_3, DSYMS_HINT_3, 1, SCALE);
  }

  lemma CheckedHigh3()
    ensures |ESYMS_HIGH_3| == |DSYMS_HIGH_3| && Checked(ESYMS_HIGH_3, DSYMS_HIGH_3, 0, SCALE)
  {
    SmallPowers();
    assert Checked(ESYMS_HIGH_3, DSYMS_HIGH_3, 15, SCALE);
    assert Checked(ESYMS_HIGH_3, DSYMS_HIGH_3, 13, SCALE);
    assert Checked(ESYMS_HIGH_3, DSYMS_HIGH_3, 11, SCALE);
    assert Checked(ESYMS_HIGH_3, DSYMS_HIGH_3, 9, SCALE);
    assert Checked(ESYMS_HIGH_3, DSYMS_HIGH_3, 7, SCALE);
    assert Checked(ESYMS_HIGH_3, DSYMS_HIGH_3, 5, SCALE);
    assert Checked(ESYMS_HIGH_3, DSYMS_HIGH_3, 3, SCALE);
    assert Checked(ESYMS_HIGH_3, DSYMS_HIGH_3, 1, SCALE);
  }

  lemma CheckedHint5Low()
    ensures |ESYMS_HINT_5_LOW| == |DSYMS_HINT_5_LOW| && Checked(ESYMS_HINT_5_LOW, DSYMS_HINT_5_LOW, 0, 572)
  {
    SmallPowers();
    assert Checked(ESYMS_HINT_5_LOW, DSYMS_HINT_5_LOW, 15, 572);
    assert Checked(ESYMS_HINT_5_LOW, DSYMS_HINT_5_LOW, 13, 572);
    assert Checked(ESYMS_HINT_5_LOW, DSYMS_HINT_5_LOW, 11, 572);
    assert Checked(ESYMS_HINT_5_LOW, DSYMS_HINT_5_LOW, 9, 572);
    assert Checked(ESYMS_HINT_5_LOW, DSYMS_HINT_5_LOW, 7, 572);
    assert Checked(ESYMS_HINT_5_LOW, DSYMS_HINT_5_LOW, 5, 572);
    assert Checked(ESYMS_HINT_5_LOW, DSYMS_HINT_5_LOW, 3, 572);
    assert Checked(ESYMS_HINT_5_LOW, DSYMS_HINT_5_LOW, 1, 572);
  }

  lemma CheckedHint5Up()
    ensures |ESYMS_HINT_5_UP| == |DSYMS_HINT_5_UP| && Checked(ESYMS_HINT_5_UP, DSYMS_HINT_5_UP, 0, SCALE)
  {
    SmallPowers();
    assert Checked(ESYMS_HINT_5_UP, DSYMS_HINT_5_UP, 14, SCALE);
    assert Checked(ESYMS_HINT_5_UP, DSYMS_HINT_5_UP, 12, SCALE);
    assert Checked(ESYMS_HINT_5_UP, DSYMS_HINT_5_UP, 10, SCALE);
    assert Checked(ESYMS_HINT_5_UP, DSYMS_HINT_5_UP, 8, SCALE);
    assert Checked(ESYMS_HINT_5_UP, DSYMS_HINT_5_UP, 6, SCALE);
    assert Checked(ESYMS_HINT_5_UP, DSYMS_HINT_5_UP, 4, SCALE);
    assert Checked(ESYMS_HINT_5_UP, DSYMS_HINT_5_UP, 2, SCALE);
  }

  lemma CheckedHigh5()
    ensures |ESYMS_HIGH_5| == |DSYMS_HIGH_5| && Checked(ESYMS_HIGH_5, DSYMS_HIGH_5, 0, SCALE)
  {
    SmallPowers();
    assert Checked(ESYMS_HIGH_5, DSYMS_HIGH_5, 17, SCALE);
    assert Checked(ESYMS_HIGH_5, DSYMS_HIGH_5, 15, SCALE);
    assert Checked(ESYMS_HIGH_5, DSYMS_HIGH_5, 13, SCALE);
    assert Checked(ESYMS_HIGH_5, DSYMS_HIGH_5, 11, SCALE);
    assert Checked(ESYMS_HIGH_5, DSYMS_HIGH_5, 9, SCALE);
    assert Checked(ESYMS_HIGH_5, DSYMS_HIGH_5, 7, SCALE);
    assert Checked(ESYMS_HIGH_5, DSYMS_HIGH_5, 5, SCALE);
    assert Checked(ESYMS_HIGH_5, DSYMS_HIGH_5, 3, SCALE);
    assert Checked(ESYMS_HIGH_5, DSYMS_HIGH_5, 1, SCALE);
  }

  /** All six shipped tables are consistent. */
  lemma ShippedTablesConsistent()
    ensures Consistent(ESYMS_HINT_2, DSYMS_HINT_2) && Consistent(ESYMS_HIGH_2, DSYMS_HIGH_2)
    ensures Consistent(ESYMS_HINT_3, DSYMS_HINT_3) && Consistent(ESYMS_HIGH_3, DSYMS_HIGH_3)
    ensures Consistent(ESYMS_HINT_5, DSYMS_HINT_5) && Consistent(ESYMS_HIGH_5, DSYMS_HIGH_5)
  {
    Consistent2();
    Consistent3();
    Consistent5();
  }

  lemma Consistent2()
    ensures Consistent(ESYMS_HINT_2, DSYMS_HINT_2) && Consistent(ESYMS_HIGH_2, DSYMS_HIGH_2)
  {
    CheckedHint2();
    CheckedConsistent(ESYMS_HINT_2, DSYMS_HINT_2);
    CheckedHigh2();
    CheckedConsistent(ESYMS_HIGH_2, DSYMS_HIGH_2);
  }

  lemma Consistent3()
    ensures Consistent(ESYMS_HINT_3, DSYMS_HINT_3) && Consistent(ESYMS_HIGH_3, DSYMS_HIGH_3)
  {
    CheckedHint3();
    CheckedConsistent(ESYMS_HINT_3, DSYMS_HINT_3);
    CheckedHigh3();
    CheckedConsistent(ESYMS_HIGH_3, DSYMS_HIGH_3);
  }

  lemma Consistent5()
    ensures Consistent(ESYMS_HINT_5, DSYMS_HINT_5) && Consistent(ESYMS_HIGH_5, DSYMS_HIGH_5)
  {
    CheckedHint5Low();
    CheckedHint5Up();
    ConsistentAppend(ESYMS_HINT_5_LOW, DSYMS_HINT_5_LOW, ESYMS_HINT_5_UP, DSYMS_HINT_5_UP, 572);
    CheckedHigh5();
    CheckedConsistent(ESYMS_HIGH_5, DSYMS_HIGH_5);
  }
}
