/** Writing configuration frames into a buffer (clause 6.4 of IEEE Std C37.118.2-2011). */
module ConfigGenerator {
  import opened Bits
  import opened Wire
  import opened Rows
  import opened CommonFrames
  import opened PmuConfigs
  import opened ConfigFrames

  // ---- Sizes ----

  lemma AddedMod(a: nat, b: nat)
    ensures (a % 0x1_0000 + b) % 0x1_0000 == (a + b) % 0x1_0000
  {
  }

  /** The size of one PMU, added up in 16 bits. */
  method GetPmuConfigSize(p: PmuConfig) returns (n: Word16)
    ensures n == PmuSize(p) % 0x1_0000
  {
    n := 30;
    var phasors, analogs := (NAME_SIZE + 4) * p.phasorCount, (NAME_SIZE + 4) * p.analogCount;
    var digitals := (16 * NAME_SIZE + 2 * 2) * p.digitalWordCount;
    n := (n + phasors) % 0x1_0000;
    AddedMod(30 + phasors, analogs);
    n := (n + analogs) % 0x1_0000;
    AddedMod(30 + phasors + analogs, digitals);
    n := (n + digitals) % 0x1_0000;
  }

  method GetConfigSize(pmus: seq<PmuConfig>) returns (n: Word16)
    ensures n == (24 + TotalSize(pmus)) % 0x1_0000
  {
    n := 24;
    var i := 0;
    while i < |pmus|
      invariant 0 <= i <= |pmus|
      invariant n == (24 + TotalSize(pmus[..i])) % 0x1_0000
    {
      var k := GetPmuConfigSize(pmus[i]);
      assert pmus[..i + 1][..i] == pmus[..i];
      AddedMod(24 + TotalSize(pmus[..i]), k);
      AddedMod(PmuSize(pmus[i]), 24 + TotalSize(pmus[..i]));
      n := (n + k) % 0x1_0000;
      i := i + 1;
    }
    assert pmus[..i] == pmus;
  }

  lemma {:induction false} EmittedSize(pmus: seq<PmuConfig>, activeOnly: bool)
    ensures TotalSize(Emitted(pmus, activeOnly)) <= TotalSize(pmus)
    ensures TotalSize(Emitted(pmus, activeOnly)) == TotalSize(pmus) <==> !activeOnly || AllActive(pmus)
  {
    if pmus != [] {
      var init, last := pmus[..|pmus| - 1], pmus[|pmus| - 1];
      EmittedSize(init, activeOnly);
      AllActiveBut(pmus, init, last);
      OneMoreSize(Emitted(init, activeOnly), last);
    }
  }

  lemma OneMoreSize(e: seq<PmuConfig>, last: PmuConfig)
    ensures TotalSize(e + [last]) == TotalSize(e) + PmuSize(last) && e + [] == e
  {
    assert (e + [last])[..|e|] == e;
  }

  /** The predicted size is the size written exactly when no PMU is left out. */
  lemma SizeAgrees(c: Config, activeOnly: bool)
    ensures FrameSize(c, activeOnly) <= 24 + TotalSize(c.pmus)
    ensures FrameSize(c, activeOnly) == 24 + TotalSize(c.pmus) <==> !activeOnly || AllActive(c.pmus)
  {
    EmittedSize(c.pmus, activeOnly);
  }

  // ---- One PMU ----

  /** A name, cut or followed by zeros. */
  method PutName(data: array<byte>, at: nat, name: seq<byte>)
    requires at + NAME_SIZE <= data.Length
    modifies data
    ensures Wrote(old(data[..]), data[..], at, Pad(name))
  {
    ghost var was := data[..];
    var nameSize := if |name| < NAME_SIZE then |name| else NAME_SIZE;
    Put(data, at, name[..nameSize]);
    if nameSize < NAME_SIZE {
      ghost var mid := data[..];
      var zeros: seq<byte> := seq(NAME_SIZE - nameSize, _ => 0);
      Put(data, at + nameSize, zeros);
      WroteMore(was, mid, data[..], at, name[..nameSize], zeros);
      assert name[..nameSize] == name;
    }
  }

  method PutNames(data: array<byte>, at: nat, names: seq<seq<byte>>) returns (end: nat)
    requires at + |Flat(Padded(names))| <= data.Length
    modifies data
    ensures end == at + |Flat(Padded(names))| && Wrote(old(data[..]), data[..], at, Flat(Padded(names)))
  {
    ghost var was, items := data[..], Padded(names);
    NoItems(was, at, items, NAME_SIZE);
    end := at;
    var i := 0;
    while i < |names|
      invariant 0 <= i <= |names| && ItemsWritten(was, data[..], at, items, NAME_SIZE, i, end)
    {
      ghost var mid := data[..];
      RoomForItem(at, items, NAME_SIZE, i);
      PutName(data, end, names[i]);
      NextItem(was, mid, data[..], at, items, NAME_SIZE, i, end);
      end := end + NAME_SIZE;
      i := i + 1;
    }
    AllItems(was, data[..], at, items, NAME_SIZE, end);
  }

  method PutHead(data: array<byte>, at: nat, p: PmuConfig)
    requires at + 26 <= data.Length
    modifies data
    ensures Wrote(old(data[..]), data[..], at, Head(p))
  {
    ghost var was := data[..];
    PutName(data, at, p.stationName);
    ghost var mid1 := data[..];
    Put(data, at + 16, Bytes2(p.sourceID));
    ghost var mid2 := data[..];
    Put(data, at + 18, Bytes2(Format(p)));
    ghost var mid3 := data[..];
    Put(data, at + 20, Bytes2(p.phasorCount) + Bytes2(p.analogCount) + Bytes2(p.digitalWordCount));
    WroteMore(was, mid1, mid2, at, Pad(p.stationName), Bytes2(p.sourceID));
    WroteMore(was, mid2, mid3, at, Pad(p.stationName) + Bytes2(p.sourceID), Bytes2(Format(p)));
    WroteMore(was, mid3, data[..], at, Pad(p.stationName) + Bytes2(p.sourceID) + Bytes2(Format(p)),
              Bytes2(p.phasorCount) + Bytes2(p.analogCount) + Bytes2(p.digitalWordCount));
    assert Head(p) == Pad(p.stationName) + Bytes2(p.sourceID) + Bytes2(Format(p))
                      + (Bytes2(p.phasorCount) + Bytes2(p.analogCount) + Bytes2(p.digitalWordCount));
  }

  method PutPhasorUnits(data: array<byte>, at: nat, p: PmuConfig) returns (end: nat)
    requires Matched(p) && at + |Flat(PhasorUnits(p))| <= data.Length
    modifies data
    ensures end == at + |Flat(PhasorUnits(p))| && Wrote(old(data[..]), data[..], at, Flat(PhasorUnits(p)))
  {
    ghost var was, units := data[..], PhasorUnits(p);
    NoItems(was, at, units, 4);
    end := at;
    var i := 0;
    while i < p.phasorCount
      invariant 0 <= i <= p.phasorCount && ItemsWritten(was, data[..], at, units, 4, i, end)
    {
      ghost var mid := data[..];
      RoomForItem(at, units, 4, i);
      Put(data, end, [p.phasorType[i]] + Bytes3(p.phasorConversion[i]));
      NextItem(was, mid, data[..], at, units, 4, i, end);
      end := end + 4;
      i := i + 1;
    }
    AllItems(was, data[..], at, units, 4, end);
  }

  /** A conversion factor, then its first byte overwritten by the type. */
  method PutAnalogUnit(data: array<byte>, at: nat, kind: byte, conversion: Int32)
    requires at + 4 <= data.Length
    modifies data
    ensures Wrote(old(data[..]), data[..], at, [kind] + Bytes4(TwosComplement(conversion))[1..])
  {
    Put(data, at, Bytes4(TwosComplement(conversion)));
    ghost var mid := data[..];
    data[at] := kind;
    assert mid[at + 1..at + 4] == mid[at..at + 4][1..];
  }

  method PutAnalogUnits(data: array<byte>, at: nat, p: PmuConfig) returns (end: nat)
    requires Matched(p) && at + |Flat(AnalogUnits(p))| <= data.Length
    modifies data
    ensures end == at + |Flat(AnalogUnits(p))| && Wrote(old(data[..]), data[..], at, Flat(AnalogUnits(p)))
  {
    ghost var was, units := data[..], AnalogUnits(p);
    NoItems(was, at, units, 4);
    end := at;
    var i := 0;
    while i < p.analogCount
      invariant 0 <= i <= p.analogCount && ItemsWritten(was, data[..], at, units, 4, i, end)
    {
      ghost var mid := data[..];
      RoomForItem(at, units, 4, i);
      PutAnalogUnit(data, end, p.analogType[i], p.analogConversion[i]);
      NextItem(was, mid, data[..], at, units, 4, i, end);
      end := end + 4;
      i := i + 1;
    }
    AllItems(was, data[..], at, units, 4, end);
  }

  method PutDigitalUnits(data: array<byte>, at: nat, p: PmuConfig) returns (end: nat)
    requires Matched(p) && at + |Flat(DigitalUnits(p))| <= data.Length
    modifies data
    ensures end == at + |Flat(DigitalUnits(p))| && Wrote(old(data[..]), data[..], at, Flat(DigitalUnits(p)))
  {
    ghost var was, units := data[..], DigitalUnits(p);
    NoItems(was, at, units, 4);
    end := at;
    var i := 0;
    while i < p.digitalWordCount
      invariant 0 <= i <= p.digitalWordCount && ItemsWritten(was, data[..], at, units, 4, i, end)
    {
      ghost var mid := data[..];
      RoomForItem(at, units, 4, i);
      Put(data, end, Bytes2(p.digitalNominal[i]) + Bytes2(p.digitalActive[i]));
      NextItem(was, mid, data[..], at, units, 4, i, end);
      end := end + 4;
      i := i + 1;
    }
    AllItems(was, data[..], at, units, 4, end);
  }

  method PutAllNames(data: array<byte>, at: nat, p: PmuConfig) returns (end: nat)
    requires at + |Flat(Names(p))| <= data.Length
    modifies data
    ensures end == at + |Flat(Names(p))| && Wrote(old(data[..]), data[..], at, Flat(Names(p)))
  {
    ghost var was := data[..];
    ghost var x, y, z := Padded(p.phasorNames), Padded(p.analogNames), Padded(p.digitalNames);
    ThreeFlatsLength(x, y, z);
    var end1 := PutNames(data, at, p.phasorNames);
    ghost var mid1 := data[..];
    var end2 := PutNames(data, end1, p.analogNames);
    ghost var mid2 := data[..];
    end := PutNames(data, end2, p.digitalNames);
    ThreeFlatsWritten(was, mid1, mid2, data[..], at, x, y, z, end1, end2);
  }

  method PutAllUnits(data: array<byte>, at: nat, p: PmuConfig) returns (end: nat)
    requires Matched(p) && at + |Flat(Units(p))| <= data.Length
    modifies data
    ensures end == at + |Flat(Units(p))| && Wrote(old(data[..]), data[..], at, Flat(Units(p)))
  {
    ghost var was := data[..];
    ghost var x, y, z := PhasorUnits(p), AnalogUnits(p), DigitalUnits(p);
    ThreeFlatsLength(x, y, z);
    var end1 := PutPhasorUnits(data, at, p);
    ghost var mid1 := data[..];
    var end2 := PutAnalogUnits(data, end1, p);
    ghost var mid2 := data[..];
    end := PutDigitalUnits(data, end2, p);
    ThreeFlatsWritten(was, mid1, mid2, data[..], at, x, y, z, end1, end2);
  }

  lemma EncodedSize(p: PmuConfig)
    requires Matched(p)
    ensures 30 + |Flat(Names(p))| + |Flat(Units(p))| == PmuSize(p)
  {
    FlatLength(Names(p), 16);
    FlatLength(Units(p), 4);
  }

  lemma FourWritten(was: seq<byte>, m1: seq<byte>, m2: seq<byte>, m3: seq<byte>, now: seq<byte>, at: nat,
                    a: seq<byte>, b: seq<byte>, c: seq<byte>, d: seq<byte>)
    requires Wrote(was, m1, at, a) && Wrote(m1, m2, at + |a|, b)
    requires Wrote(m2, m3, at + |a| + |b|, c) && Wrote(m3, now, at + |a| + |b| + |c|, d)
    ensures Wrote(was, now, at, a + b + c + d)
  {
    ThreeWritten(was, m1, m2, m3, at, a, b, c);
    WroteMore(was, m3, now, at, a + b + c, d);
  }

  lemma PmuWritten(was: seq<byte>, m1: seq<byte>, m2: seq<byte>, m3: seq<byte>, now: seq<byte>, at: nat, p: PmuConfig,
                   names: seq<byte>, units: seq<byte>, x: nat, y: nat)
    requires Matched(p) && names == Flat(Names(p)) && units == Flat(Units(p))
    requires x == at + 26 + |names| && y == x + |units|
    requires Wrote(was, m1, at, Head(p)) && Wrote(m1, m2, at + 26, names)
    requires Wrote(m2, m3, x, units) && Wrote(m3, now, y, Tail(p))
    ensures Wrote(was, now, at, EncodePmu(p))
  {
    FourWritten(was, m1, m2, m3, now, at, Head(p), names, units, Tail(p));
  }

  method PutPmu(data: array<byte>, at: nat, p: PmuConfig) returns (end: nat)
    requires Matched(p) && at + PmuSize(p) <= data.Length
    modifies data
    ensures end == at + PmuSize(p) && Wrote(old(data[..]), data[..], at, EncodePmu(p))
  {
    ghost var was := data[..];
    EncodedSize(p);
    ghost var names, units := Flat(Names(p)), Flat(Units(p));
    PutHead(data, at, p);
    ghost var mid1 := data[..];
    var x := PutAllNames(data, at + 26, p);
    ghost var mid2 := data[..];
    var y := PutAllUnits(data, x, p);
    ghost var mid3 := data[..];
    var tail := [0, if p.nominalFrequency == 50.0 then 1 else 0] + Bytes2(p.changeCount);
    Put(data, y, tail);
    end := y + 4;
    PmuWritten(was, mid1, mid2, mid3, data[..], at, p, names, units, x, y);
  }

  /** One PMU at a position, or nothing when the rest of the buffer is too short. */
  method GeneratePmuConfig(data: array<byte>, at: nat, p: PmuConfig) returns (used: nat)
    requires Matched(p) && PmuSize(p) < 0x1_0000 && at <= data.Length
    modifies data
    ensures data.Length - at < PmuSize(p) ==> used == 0 && data[..] == old(data[..])
    ensures data.Length - at >= PmuSize(p) ==>
              used == PmuSize(p) && Wrote(old(data[..]), data[..], at, EncodePmu(p))
  {
    var size := GetPmuConfigSize(p);
    if data.Length - at < size {
      return 0;
    }
    var end := PutPmu(data, at, p);
    return end - at;
  }

  // ---- The frame ----

  lemma EmittedNext(pmus: seq<PmuConfig>, i: nat, activeOnly: bool)
    requires i < |pmus|
    ensures Emitted(pmus[..i + 1], activeOnly)
         == if pmus[i].active || !activeOnly then Emitted(pmus[..i], activeOnly) + [pmus[i]]
            else Emitted(pmus[..i], activeOnly)
  {
    assert pmus[..i + 1][..i] == pmus[..i];
  }

  lemma OneMoreBlock(e: seq<PmuConfig>, last: PmuConfig)
    requires AllMatched(e) && Matched(last)
    ensures AllMatched(e + [last]) && Flat(Blocks(e + [last])) == Flat(Blocks(e)) + EncodePmu(last)
  {
    var bs := Blocks(e) + [EncodePmu(last)];
    assert Blocks(e + [last]) == bs;
    assert bs[..|bs| - 1] == Blocks(e);
  }

  lemma {:induction false} PrefixSize(pmus: seq<PmuConfig>, i: nat)
    requires i < |pmus|
    ensures TotalSize(pmus[..i]) + PmuSize(pmus[i]) <= TotalSize(pmus)
    decreases |pmus|
  {
    if i < |pmus| - 1 {
      var init := pmus[..|pmus| - 1];
      PrefixSize(init, i);
      assert init[..i] == pmus[..i];
    }
  }

  /** The first i PMUs are written, as far as they are to be, and end at used. */
  ghost predicate PmusWritten(was: seq<byte>, now: seq<byte>, pmus: seq<PmuConfig>, i: nat, activeOnly: bool, used: nat)
    requires AllMatched(pmus)
  {
    && i <= |pmus| && used == 20 + TotalSize(Emitted(pmus[..i], activeOnly))
    && Wrote(was, now, 20, Flat(Blocks(Emitted(pmus[..i], activeOnly))))
  }

  /** One more PMU written, or left out. */
  lemma NextPmu(was: seq<byte>, mid: seq<byte>, now: seq<byte>, pmus: seq<PmuConfig>, i: nat, activeOnly: bool,
                used: nat, next: nat)
    requires AllMatched(pmus) && i < |pmus| && PmusWritten(was, mid, pmus, i, activeOnly, used)
    requires if pmus[i].active || !activeOnly
             then Wrote(mid, now, used, EncodePmu(pmus[i])) && next == used + PmuSize(pmus[i])
             else now == mid && next == used
    ensures PmusWritten(was, now, pmus, i + 1, activeOnly, next)
  {
    var e := Emitted(pmus[..i], activeOnly);
    EmittedNext(pmus, i, activeOnly);
    if pmus[i].active || !activeOnly {
      MorePmus(was, mid, now, e, pmus[i], used);
    }
  }

  lemma MorePmus(was: seq<byte>, mid: seq<byte>, now: seq<byte>, e: seq<PmuConfig>, last: PmuConfig, used: nat)
    requires AllMatched(e) && Matched(last) && used == 20 + TotalSize(e)
    requires Wrote(was, mid, 20, Flat(Blocks(e))) && Wrote(mid, now, used, EncodePmu(last))
    ensures AllMatched(e + [last]) && used + PmuSize(last) == 20 + TotalSize(e + [last])
    ensures Wrote(was, now, 20, Flat(Blocks(e + [last])))
  {
    BlocksSize(e);
    OneMoreSize(e, last);
    OneMoreBlock(e, last);
    WroteMore(was, mid, now, 20, Flat(Blocks(e)), EncodePmu(last));
  }

  lemma RoomForPmu(was: seq<byte>, mid: seq<byte>, pmus: seq<PmuConfig>, i: nat, activeOnly: bool, used: nat)
    requires AllMatched(pmus) && i < |pmus| && PmusWritten(was, mid, pmus, i, activeOnly, used)
    ensures used + PmuSize(pmus[i]) <= 20 + TotalSize(pmus)
  {
    PrefixSize(pmus, i);
    EmittedSize(pmus[..i], activeOnly);
  }

  lemma NoPmusWritten(was: seq<byte>, pmus: seq<PmuConfig>, activeOnly: bool)
    requires AllMatched(pmus) && |was| >= 20
    ensures PmusWritten(was, was, pmus, 0, activeOnly, 20)
  {
    WroteNothing(was, 20);
  }

  lemma AllPmusWritten(was: seq<byte>, now: seq<byte>, pmus: seq<PmuConfig>, activeOnly: bool, used: nat)
    requires AllMatched(pmus) && PmusWritten(was, now, pmus, |pmus|, activeOnly, used)
    ensures used == 20 + TotalSize(Emitted(pmus, activeOnly))
    ensures Wrote(was, now, 20, Flat(Blocks(Emitted(pmus, activeOnly))))
  {
    assert pmus[..|pmus|] == pmus;
  }

  /** The PMUs that are to be written, one after the other from byte 20. */
  method PutPmus(data: array<byte>, pmus: seq<PmuConfig>, activeOnly: bool) returns (used: nat)
    requires AllMatched(pmus) && 24 + TotalSize(pmus) <= data.Length && 24 + TotalSize(pmus) < 0x1_0000
    modifies data
    ensures used == 20 + TotalSize(Emitted(pmus, activeOnly))
    ensures Wrote(old(data[..]), data[..], 20, Flat(Blocks(Emitted(pmus, activeOnly))))
  {
    ghost var was := data[..];
    NoPmusWritten(was, pmus, activeOnly);
    used := 20;
    var i := 0;
    while i < |pmus|
      invariant 0 <= i <= |pmus|
      invariant PmusWritten(was, data[..], pmus, i, activeOnly, used)
    {
      ghost var mid, at := data[..], used;
      RoomForPmu(was, mid, pmus, i, activeOnly, used);
      if pmus[i].active || !activeOnly {
        var k := GeneratePmuConfig(data, used, pmus[i]);
        used := used + k;
      }
      NextPmu(was, mid, data[..], pmus, i, activeOnly, at, used);
      i := i + 1;
    }
    AllPmusWritten(was, data[..], pmus, activeOnly, used);
  }

  /** Bytes 6 to 20, of which byte 14 is not written. */
  method PutFixed(data: array<byte>, c: Config)
    requires data.Length >= 20
    modifies data
    ensures Wrote(old(data[..]), data[..], 6, Fixed(old(data[14]), c))
  {
    ghost var was, kept := data[..], data[14];
    AddTime(data, c.soc, c.fracsec);
    ghost var mid1 := data[..];
    Put(data, 15, Bytes3(c.timeBase));
    ghost var mid2 := data[..];
    Put(data, 18, Bytes2(|c.pmus|));
    assert Wrote(mid1, mid1, 14, [kept]);
    WroteMore(was, Replace(was, 6, Bytes4(c.soc)), mid1, 6, Bytes4(c.soc), Bytes4(c.fracsec));
    WroteMore(was, mid1, mid1, 6, Bytes4(c.soc) + Bytes4(c.fracsec), [kept]);
    ThreeWritten(was, mid1, mid2, data[..], 6, Bytes4(c.soc) + Bytes4(c.fracsec) + [kept], Bytes3(c.timeBase),
                 Bytes2(|c.pmus|));
  }

  lemma BodyWritten(was: seq<byte>, mid1: seq<byte>, mid2: seq<byte>, now: seq<byte>, kept: byte, c: Config,
                    activeOnly: bool, blocks: seq<byte>, rate: seq<byte>, used: nat)
    requires AllMatched(c.pmus) && Wrote(was, mid1, 6, Fixed(kept, c))
    requires blocks == Flat(Blocks(Emitted(c.pmus, activeOnly))) && Wrote(mid1, mid2, 20, blocks)
    requires used == 20 + |blocks| && rate == Bytes2(Unsigned16(c.dataRate)) && Wrote(mid2, now, used, rate)
    ensures Wrote(was, now, 6, Body(kept, c, activeOnly))
  {
    var fixed := Fixed(kept, c);
    assert |fixed| == 14 && Body(kept, c, activeOnly) == fixed + blocks + rate;
    ThreeWritten(was, mid1, mid2, now, 6, fixed, blocks, rate);
  }

  /** All from byte 6 up to the CHK word. */
  method PutBody(data: array<byte>, c: Config, activeOnly: bool) returns (used: nat)
    requires AllMatched(c.pmus) && 24 + TotalSize(c.pmus) <= data.Length && 24 + TotalSize(c.pmus) < 0x1_0000
    modifies data
    ensures used == FrameSize(c, activeOnly) - 2
    ensures Wrote(old(data[..]), data[..], 6, Body(old(data[14]), c, activeOnly))
  {
    ghost var was, kept, blocks := data[..], data[14], Flat(Blocks(Emitted(c.pmus, activeOnly)));
    assert 24 + |blocks| == FrameSize(c, activeOnly) <= data.Length by {
      EmittedSize(c.pmus, activeOnly);
      BlocksSize(Emitted(c.pmus, activeOnly));
    }
    PutFixed(data, c);
    ghost var mid1 := data[..];
    used := PutPmus(data, c.pmus, activeOnly);
    ghost var mid2 := data[..];
    var rate := Bytes2(Unsigned16(c.dataRate));
    Put(data, used, rate);
    BodyWritten(was, mid1, mid2, data[..], kept, c, activeOnly, blocks, rate, used);
    used := used + 2;
  }

  method PutFrame(data: array<byte>, c: Config, activeOnly: bool) returns (used: nat)
    requires AllMatched(c.pmus) && 24 + TotalSize(c.pmus) <= data.Length && 24 + TotalSize(c.pmus) < 0x1_0000
    modifies data
    ensures used == FrameSize(c, activeOnly) <= data.Length && data[..] == Completed(old(data[..]), c, activeOnly)
  {
    EmittedSize(c.pmus, activeOnly);
    used := PutBody(data, c, activeOnly);
    used := used + 2;
    Finish(data, used);
  }

  /** The frame after SYNC and IDCODE, or nothing when the buffer is too short. */
  method GenerateConfig(data: array<byte>, c: Config, activeOnly: bool) returns (used: nat)
    requires AllMatched(c.pmus) && 24 + TotalSize(c.pmus) < 0x1_0000
    modifies data
    ensures data.Length < 24 + TotalSize(c.pmus) ==> used == 0 && data[..] == old(data[..])
    ensures data.Length >= 24 + TotalSize(c.pmus) ==>
              used == FrameSize(c, activeOnly) <= data.Length && data[..] == Completed(old(data[..]), c, activeOnly)
  {
    var size := GetConfigSize(c.pmus);
    if data.Length < size {
      return 0;
    }
    used := PutFrame(data, c, activeOnly);
  }

  /** Configuration frame 1: all PMUs. */
  method GenerateConfig1(data: array<byte>, c: Config) returns (used: nat)
    requires AllMatched(c.pmus) && 24 + TotalSize(c.pmus) < 0x1_0000
    modifies data
    ensures data.Length < 24 + TotalSize(c.pmus) ==>
              used == 0 && data[..] == if WritesCommonFrame(data.Length)
                                       then WithCommonFrame(old(data[..]), c.idcode, CONFIG1) else old(data[..])
    ensures data.Length >= 24 + TotalSize(c.pmus) ==>
              used == FrameSize(c, false) <= data.Length && data[..] == Generated(old(data[..]), c, CONFIG1, false)
  {
    GenerateCommonFrame(data, c.idcode, CONFIG1);
    used := GenerateConfig(data, c, false);
  }

  /** Configuration frame 2: only active PMUs, under a count of all of them. */
  method GenerateConfig2(data: array<byte>, c: Config) returns (used: nat)
    requires AllMatched(c.pmus) && 24 + TotalSize(c.pmus) < 0x1_0000
    modifies data
    ensures data.Length < 24 + TotalSize(c.pmus) ==>
              used == 0 && data[..] == if WritesCommonFrame(data.Length)
                                       then WithCommonFrame(old(data[..]), c.idcode, CONFIG2) else old(data[..])
    ensures data.Length >= 24 + TotalSize(c.pmus) ==>
              used == FrameSize(c, true) <= data.Length && data[..] == Generated(old(data[..]), c, CONFIG2, true)
  {
    GenerateCommonFrame(data, c.idcode, CONFIG2);
    used := GenerateConfig(data, c, true);
  }
}
