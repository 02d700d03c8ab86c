/**
 What one pass writes, module by module: every module that has data gets exactly one block, in the order
 scaler, TDCs, ADCs, with its own type number and its own words.
 */
module VmedaqPass {
  import opened Basics
  import opened Words
  import opened MadcStream
  import opened MadcRepair
  import opened Vmedaq
  import VmedaqBlocks
  import Tdc
  import Scaler

  // ---- One block for each module that has data ----

  /** What each TDC hands over. */
  function TdcParts(ts: seq<TdcInput>): (r: seq<seq<Content>>)
    ensures |r| == |ts| && forall i :: 0 <= i < |ts| ==> r[i] == TdcContents(ts[i])
  {
    seq(|ts|, i requires 0 <= i < |ts| => TdcContents(ts[i]))
  }

  predicate ValidAdcs(adcs: seq<AdcInput>) { forall i :: 0 <= i < |adcs| ==> ValidAdc(adcs[i]) }

  /** What each ADC hands over; each finds the counter table that the ADCs before it left. */
  function AdcPart(adcs: seq<AdcInput>, table: Table, j: nat): seq<Content>
    requires ValidAdcs(adcs) && j < |adcs|
  {
    AdcContents(adcs[j], AllAdcTable(adcs[..j], table))
  }

  function AdcParts(adcs: seq<AdcInput>, table: Table): (r: seq<seq<Content>>)
    requires ValidAdcs(adcs)
    ensures |r| == |adcs| && forall j :: 0 <= j < |adcs| ==> r[j] == AdcPart(adcs, table, j)
  {
    seq(|adcs|, j requires 0 <= j < |adcs| => AdcPart(adcs, table, j))
  }

  /** The scaler is module 0, then come the TDCs, then the ADCs. */
  function Modules(hw: Hardware, table: Table, latched: seq<Word>): (r: seq<seq<Content>>)
    requires hw.Valid() && |latched| == 3
    ensures |r| == 1 + |hw.tdcs| + |hw.adcs|
  {
    [ScalerContents(hw.mebEvents, hw.meb, latched)] + TdcParts(hw.tdcs) + AdcParts(hw.adcs, table)
  }

  function Join(parts: seq<seq<Content>>, n: nat): seq<Content>
    requires n <= |parts|
  {
    if n == 0 then [] else Join(parts, n - 1) + parts[n - 1]
  }

  predicate AtMostOne(parts: seq<seq<Content>>) { forall m :: 0 <= m < |parts| ==> |parts[m]| <= 1 }

  /** The modules with data among the first `n`. */
  function WithData(parts: seq<seq<Content>>, n: nat): set<nat>
    requires n <= |parts|
  {
    set m: nat | m < n && parts[m] != []
  }

  lemma {:induction false} JoinSize(parts: seq<seq<Content>>, n: nat)
    requires n <= |parts| && AtMostOne(parts)
    ensures |Join(parts, n)| == |WithData(parts, n)|
  {
    if n > 0 {
      var last: nat := n - 1;
      JoinSize(parts, last);
      assert WithData(parts, n) == WithData(parts, last) + if parts[last] != [] then {last} else {};
    } else {
      assert WithData(parts, n) == {};
    }
  }

  lemma {:induction false} JoinGrows(parts: seq<seq<Content>>, k: nat, n: nat)
    requires k <= n <= |parts|
    ensures Join(parts, k) <= Join(parts, n)
  {
    if k < n {
      JoinGrows(parts, k, n - 1);
    }
  }

  lemma JoinAt(parts: seq<seq<Content>>, m: nat)
    requires m < |parts| && AtMostOne(parts) && parts[m] != []
    ensures |WithData(parts, m)| < |Join(parts, |parts|)|
    ensures Join(parts, |parts|)[|WithData(parts, m)|] == parts[m][0]
  {
    JoinSize(parts, m);
    JoinGrows(parts, m + 1, |parts|);
    assert Join(parts, m + 1)[|Join(parts, m)|] == parts[m][0];
  }

  lemma {:induction false} JoinFront(a: seq<seq<Content>>, b: seq<seq<Content>>, n: nat)
    requires n <= |a|
    ensures Join(a + b, n) == Join(a, n)
  {
    if n > 0 {
      JoinFront(a, b, n - 1);
    }
  }

  lemma {:induction false} JoinConcat(a: seq<seq<Content>>, b: seq<seq<Content>>, n: nat)
    requires n <= |b|
    ensures Join(a + b, |a| + n) == Join(a, |a|) + Join(b, n)
  {
    if n == 0 {
      JoinFront(a, b, |a|);
      assert Join(a, |a|) + [] == Join(a, |a|);
    } else {
      JoinConcat(a, b, n - 1);
      assert (a + b)[|a| + n - 1] == b[n - 1];
      Assoc(Join(a, |a|), Join(b, n - 1), b[n - 1]);
    }
  }

  lemma {:induction false} TdcsJoin(ts: seq<TdcInput>, parts: seq<seq<Content>>, n: nat)
    requires parts == TdcParts(ts) && n <= |ts|
    ensures Join(parts, n) == AllTdcContents(ts[..n])
  {
    if n > 0 {
      TdcsJoin(ts, parts, n - 1);
      assert ts[..n][..n - 1] == ts[..n - 1];
    }
  }

  lemma {:induction false} AdcsJoin(adcs: seq<AdcInput>, table: Table, parts: seq<seq<Content>>, n: nat)
    requires ValidAdcs(adcs) && parts == AdcParts(adcs, table) && n <= |adcs|
    ensures Join(parts, n) == AllAdcContents(adcs[..n], table)
  {
    if n > 0 {
      AdcsJoin(adcs, table, parts, n - 1);
      LastAdc(adcs, table, n - 1);
      assert parts[n - 1] == AdcPart(adcs, table, n - 1);
    }
  }

  lemma LastAdc(adcs: seq<AdcInput>, table: Table, j: nat)
    requires ValidAdcs(adcs) && j < |adcs|
    ensures AllAdcContents(adcs[..j + 1], table) == AllAdcContents(adcs[..j], table) + AdcPart(adcs, table, j)
  {
    assert adcs[..j + 1][..j] == adcs[..j];
  }

  lemma JoinThree(a: seq<seq<Content>>, b: seq<seq<Content>>, c: seq<seq<Content>>)
    ensures Join(a + b + c, |a + b + c|) == Join(a, |a|) + Join(b, |b|) + Join(c, |c|)
  {
    JoinConcat(a + b, c, |c|);
    JoinConcat(a, b, |b|);
  }

  lemma SweepIsJoin(hw: Hardware, table: Table, latched: seq<Word>, parts: seq<seq<Content>>)
    requires hw.Valid() && |latched| == 3 && parts == Modules(hw, table, latched)
    ensures Sweep(hw, table, latched) == Join(parts, |parts|)
  {
    var c := ScalerContents(hw.mebEvents, hw.meb, latched);
    TdcsJoin(hw.tdcs, TdcParts(hw.tdcs), |hw.tdcs|);
    AdcsJoin(hw.adcs, table, AdcParts(hw.adcs, table), |hw.adcs|);
    JoinThree([c], TdcParts(hw.tdcs), AdcParts(hw.adcs, table));
    assert hw.tdcs[..|hw.tdcs|] == hw.tdcs && hw.adcs[..|hw.adcs|] == hw.adcs;
    JoinOne(c);
  }

  lemma JoinOne(c: seq<Content>)
    ensures Join([c], 1) == c
  {
    assert Join([c], 0) == [] && [] + c == c;
  }

  lemma ModulesAtMostOne(hw: Hardware, table: Table, latched: seq<Word>, parts: seq<seq<Content>>)
    requires hw.Valid() && |latched| == 3 && parts == Modules(hw, table, latched)
    ensures AtMostOne(parts)
  {
    var t, a := TdcParts(hw.tdcs), AdcParts(hw.adcs, table);
    forall m | 0 <= m < |parts| ensures |parts[m]| <= 1 {
      if 0 < m <= |t| {
        assert parts[m] == t[m - 1];
      } else if m > |t| {
        assert parts[m] == a[m - 1 - |t|];
      }
    }
  }

  /**
   Every module with data has exactly one block, at the place given by the number of modules with data before
   it, and there are no other blocks.
   */
  lemma OneBlockEach(hw: Hardware, table: Table, latched: seq<Word>, parts: seq<seq<Content>>, m: nat)
    requires hw.Valid() && |latched| == 3 && parts == Modules(hw, table, latched) && m < |parts|
    ensures var all := Sweep(hw, table, latched);
            && |all| == |WithData(parts, |parts|)|
            && (parts[m] != [] ==>
                  |parts[m]| == 1 && |WithData(parts, m)| < |all| && all[|WithData(parts, m)|] == parts[m][0])
  {
    SweepIsJoin(hw, table, latched, parts);
    ModulesAtMostOne(hw, table, latched, parts);
    JoinSize(parts, |parts|);
    if parts[m] != [] {
      JoinAt(parts, m);
    }
  }

  /** Which module is which: block types 2, 1 and 0x1000. */
  lemma ModuleIs(hw: Hardware, table: Table, latched: seq<Word>, parts: seq<seq<Content>>, i: nat, j: nat)
    requires hw.Valid() && |latched| == 3 && parts == Modules(hw, table, latched) && i < |hw.tdcs| && j < |hw.adcs|
    ensures parts[0] == ScalerContents(hw.mebEvents, hw.meb, latched)
    ensures parts[0] != [] <==> hw.mebEvents > 0
    ensures parts[0] != [] ==> parts[0][0].kind == 2
    ensures parts[1 + i] == TdcContents(hw.tdcs[i]) && (parts[1 + i] != [] ==> parts[1 + i][0].kind == 1)
    ensures var m := 1 + |hw.tdcs| + j;
            parts[m] == AdcPart(hw.adcs, table, j) && (parts[m] != [] ==> parts[m][0].kind == 0x1000)
  {
    assert parts[1 + i] == TdcParts(hw.tdcs)[i];
    assert parts[1 + |hw.tdcs| + j] == AdcParts(hw.adcs, table)[j];
  }

  /** Each ADC works on the table its predecessor left. */
  lemma TableHandedOn(adcs: seq<AdcInput>, table: Table, j: nat)
    requires j < |adcs| && forall i :: 0 <= i < |adcs| ==> ValidAdc(adcs[i])
    ensures AllAdcTable(adcs[..0], table) == table
    ensures AllAdcTable(adcs[..j + 1], table)
            == Repaired(AllAdcTable(adcs[..j], table), adcs[j].fifo, adcs[j].mid, adcs[j].resolution).table
  {
    assert adcs[..j + 1][..j] == adcs[..j];
  }

  lemma {:induction false} JoinEmptyIff(parts: seq<seq<Content>>, n: nat)
    requires n <= |parts|
    ensures Join(parts, n) == [] <==> forall m :: 0 <= m < n ==> parts[m] == []
  {
    if n > 0 {
      JoinEmptyIff(parts, n - 1);
    }
  }

  /** A pass counts as quiet exactly when no TDC and no ADC has data and the scaler announces nothing or shows no
      header word among its first 33 words. */
  lemma QuietIff(hw: Hardware, table: Table, latched: seq<Word>)
    requires hw.Valid() && |latched| == 3
    ensures Quiet(hw, table, latched) <==>
            && (hw.mebEvents == 0 || forall k :: 0 <= k < 33 ==> Scaler.At(hw.meb, k) / 0x400_0000 % 2 == 0)
            && (forall i :: 0 <= i < |hw.tdcs| ==> TdcContents(hw.tdcs[i]) == [])
            && forall j :: 0 <= j < |hw.adcs| ==> AdcPart(hw.adcs, table, j) == []
  {
    ScalerSeesHeader(hw.mebEvents, hw.meb, latched);
    TdcsEmptyIff(hw.tdcs);
    AdcsEmptyIff(hw.adcs, table);
  }

  lemma TdcsEmptyIff(ts: seq<TdcInput>)
    ensures AllTdcContents(ts) == [] <==> forall i :: 0 <= i < |ts| ==> TdcContents(ts[i]) == []
  {
    var parts := TdcParts(ts);
    TdcsJoin(ts, parts, |ts|);
    JoinEmptyIff(parts, |ts|);
    assert ts[..|ts|] == ts;
    assert forall i :: 0 <= i < |ts| ==> parts[i] == TdcContents(ts[i]);
  }

  lemma AdcsEmptyIff(adcs: seq<AdcInput>, table: Table)
    requires ValidAdcs(adcs)
    ensures AllAdcContents(adcs, table) == [] <==> forall j :: 0 <= j < |adcs| ==> AdcPart(adcs, table, j) == []
  {
    var parts := AdcParts(adcs, table);
    AdcsJoin(adcs, table, parts, |adcs|);
    JoinEmptyIff(parts, |adcs|);
    assert adcs[..|adcs|] == adcs;
    assert forall j :: 0 <= j < |adcs| ==> parts[j] == AdcPart(adcs, table, j);
  }

  lemma ScalerSeesHeader(events: nat, meb: Scaler.Port, latched: seq<Word>)
    requires |latched| == 3
    ensures events > 0 ==>
              (ScalerTaken(events, meb, latched).eventCount < 0
               <==> forall k :: 0 <= k < 33 ==> Scaler.At(meb, k) / 0x400_0000 % 2 == 0)
  {
    if events > 0 {
      var first := Scaler.Taken([], -1, latched);
      Scaler.TakeStep(meb, 0, events, ROOM, [0, 0, 0], first);
      HeaderAmong(meb, 0);
    }
  }

  lemma HeaderAmong(meb: Scaler.Port, from: nat)
    ensures Scaler.FindHeader(meb, from, from + Scaler.N_CHANNELS) < 0
            <==> forall k :: from <= k < from + 33 ==> Scaler.At(meb, k) / 0x400_0000 % 2 == 0
  {
    var h := Scaler.FindHeader(meb, from, from + Scaler.N_CHANNELS);
    if h < 0 {
      forall k | from <= k < from + 33 ensures Scaler.At(meb, k) / 0x400_0000 % 2 == 0 {
        assert Scaler.HeaderBit(Scaler.At(meb, k)) == 0;
      }
    }
  }
}
