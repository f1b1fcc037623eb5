/**
  The S-DES engine: a key schedule that derives two 8-bit round keys from a 10-bit key,
  and a two-round Feistel network over an 8-bit block, with caller-supplied permutation
  tables and the two fixed S-boxes. Every intermediate value is appended to a trace.
*/
module Sdes {
  import opened Wrappers
  import opened BitStrings
  import opened Logs

  /** One line of the trace, by the stage that produced it. */
  datatype Entry =
    | KeyGenerationHeader
    | P10Result(p10: string)
    | Split(left: string, right: string)
    | Shifted1(left: string, right: string)
    | SubKey1(k1: string)
    | Shifted2(left: string, right: string)
    | SubKey2(k2: string)
    | KeysReversed
    | InitialPermutationHeader
    | IpResult(ip: string)
    | Halves(l0: string, r0: string)
    | RoundHeader(round: nat)
    | Expanded(ep: string)
    | KeyMixed(mixed: string)
    | SBoxRowColumn(name: string, rowBits: string, row: int, columnBits: string, column: int)
    | SBoxResult(name: string, val: int, out: string)
    | P4Result(p4: string)
    | Round1Left(l1: string)
    | Swapped(left: string, right: string)
    | Round2Left(l2: string)
    | FinalOutput(result: string)

  /** The six caller-supplied tables, each a list of 1-based positions. */
  datatype Tables = Tables(p10: seq<int>, p8: seq<int>, ip: seq<int>, ip1: seq<int>, ep: seq<int>, p4: seq<int>)

  /** The value a stage computes and the trace entries it appends. */
  datatype Stage = Stage(out: string, trace: seq<Entry>)

  /** The round keys and the trace of the key schedule. */
  datatype SubKeys = SubKeys(k1: string, k2: string, trace: seq<Entry>)

  const S0: seq<seq<int>> := [[1, 0, 3, 2], [3, 2, 1, 0], [0, 2, 1, 3], [3, 1, 3, 2]]
  const S1: seq<seq<int>> := [[0, 1, 2, 3], [2, 0, 1, 3], [3, 0, 1, 0], [2, 1, 0, 3]]

  /** A 4x4 matrix of 2-bit values. */
  predicate IsSBox(box: seq<seq<int>>) {
    |box| == 4 && forall r :: 0 <= r < 4 ==> |box[r]| == 4 && forall c :: 0 <= c < 4 ==> 0 <= box[r][c] <= 3
  }

  lemma StandardSBoxes()
    ensures IsSBox(S0) && IsSBox(S1)
  {
  }

  function BitValue(c: char): (v: int)
    requires IsBit(c)
    ensures 0 <= v <= 1 && (v == 1 <==> c == '1')
  {
    if c == '1' then 1 else 0
  }

  /** `int(hi + lo, 2)` for two bit characters. */
  function TwoBitValue(hi: char, lo: char): (v: int)
    requires IsBit(hi) && IsBit(lo)
    ensures 0 <= v <= 3
  {
    2 * BitValue(hi) + BitValue(lo)
  }

  /** `format(v, "02b")` for a value of two bits. */
  function TwoBitString(v: int): (s: string)
    requires 0 <= v <= 3
    ensures |s| == 2 && IsBits(s) && TwoBitValue(s[0], s[1]) == v
  {
    [if v >= 2 then '1' else '0', if v % 2 == 1 then '1' else '0']
  }

  /** Formatting a value read from two bits gives back those two bits. */
  lemma TwoBitStringOfValue(hi: char, lo: char)
    requires IsBit(hi) && IsBit(lo)
    ensures TwoBitString(TwoBitValue(hi, lo)) == [hi, lo]
  {
  }

  /** The S-box row: the outer bits 0 and 3 read as a binary number. */
  function Row(bits: string): (row: int)
    requires |bits| >= 4 && IsBits(bits)
    ensures 0 <= row <= 3
  {
    TwoBitValue(bits[0], bits[3])
  }

  /** The S-box column: the inner bits 1 and 2 read as a binary number. */
  function Column(bits: string): (col: int)
    requires |bits| >= 4 && IsBits(bits)
    ensures 0 <= col <= 3
  {
    TwoBitValue(bits[1], bits[2])
  }

  /** What `sbox` returns: two bits that encode `box[row][col]`. */
  function SBoxLookup(bits: string, box: seq<seq<int>>): (s: string)
    requires |bits| >= 4 && IsBits(bits) && IsSBox(box)
    ensures |s| == 2 && IsBits(s)
    ensures TwoBitValue(s[0], s[1]) == box[Row(bits)][Column(bits)]
  {
    TwoBitString(box[Row(bits)][Column(bits)])
  }

  /** `sbox` as a stage: its output and the two entries it appends, or the `IndexError` of `bits[3]`. */
  function SBoxStage(bits: string, box: seq<seq<int>>, name: string): (r: Result<Stage>)
    requires IsBits(bits) && IsSBox(box)
    ensures r.Ok? <==> |bits| >= 4
    ensures r.Ok? ==> |r.value.out| == 2 && IsBits(r.value.out) && |r.value.trace| == 2
  {
    if |bits| < 4 then
      Err(IndexError)
    else
      var val := box[Row(bits)][Column(bits)];
      Ok(Stage(SBoxLookup(bits, box),
               [SBoxRowColumn(name, [bits[0], bits[3]], Row(bits), [bits[1], bits[2]], Column(bits)),
                SBoxResult(name, val, SBoxLookup(bits, box))]))
  }

  /** `sbox(bits, box, name, log)`: appends the row/column entry and the output entry to `log`. */
  method SBox(bits: string, box: seq<seq<int>>, name: string, log: Log<Entry>) returns (out: Result<string>)
    requires IsBits(bits) && IsSBox(box)
    modifies log
    ensures var st := SBoxStage(bits, box, name);
      && (st.Ok? ==> out == Ok(st.value.out) && log.entries == old(log.entries) + st.value.trace)
      && (st.Err? ==> out == Err(IndexError) && log.entries == old(log.entries))
  {
    if |bits| < 4 {
      return Err(IndexError);
    }
    var row := TwoBitValue(bits[0], bits[3]);
    var col := TwoBitValue(bits[1], bits[2]);
    log.Append(SBoxRowColumn(name, [bits[0], bits[3]], row, [bits[1], bits[2]], col));
    var val := box[row][col];
    var s := TwoBitString(val);
    log.Append(SBoxResult(name, val, s));
    return Ok(s);
  }

  /** The round function F applied to a half with round key `k`: EP, XOR, S0/S1, P4. */
  function RoundStage(half: string, k: string, t: Tables): (r: Result<Stage>)
    ensures r.Err? ==> r.error == IndexError
    ensures r.Ok? ==> |r.value.out| == |t.p4| && |r.value.trace| == 7
  {
    StandardSBoxes();
    var ep :- Permute(half, t.ep);
    var x :- XorOf(ep, k);
    var s0 :- SBoxStage(Take(x, 4), S0, "S0");
    var s1 :- SBoxStage(Drop(x, 4), S1, "S1");
    var p4 :- Permute(s0.out + s1.out, t.p4);
    Ok(Stage(p4, [Expanded(ep), KeyMixed(x)] + s0.trace + s1.trace + [P4Result(p4)]))
  }

  /** The key schedule: P10, split, shift by 1, P8 gives K1; shift by 2 more, P8 gives K2. */
  function KeySchedule(key: string, t: Tables): (r: Result<SubKeys>)
    ensures r.Err? ==> r.error == IndexError
    ensures r.Ok? ==> |r.value.k1| == |t.p8| && |r.value.k2| == |t.p8| && |r.value.trace| == 7
  {
    var p10 :- Permute(key, t.p10);
    var l, r := Take(p10, 5), Drop(p10, 5);
    var l1, r1 := LeftShift(l, 1), LeftShift(r, 1);
    var k1 :- Permute(l1 + r1, t.p8);
    var l2, r2 := LeftShift(l1, 2), LeftShift(r1, 2);
    var k2 :- Permute(l2 + r2, t.p8);
    Ok(SubKeys(k1, k2, [KeyGenerationHeader, P10Result(p10), Split(l, r), Shifted1(l1, r1),
                        SubKey1(k1), Shifted2(l2, r2), SubKey2(k2)]))
  }

  /** IP, two Feistel rounds with round keys `k1` then `k2` and a swap between them, IP-1. */
  function Feistel(text: string, k1: string, k2: string, t: Tables): (r: Result<Stage>)
    ensures r.Err? ==> r.error == IndexError
    ensures r.Ok? ==> |r.value.out| == |t.ip1| && |r.value.trace| == 23
  {
    var ip :- Permute(text, t.ip);
    var l0, r0 := Take(ip, 4), Drop(ip, 4);
    var f1 :- RoundStage(r0, k1, t);
    var l1 :- XorOf(l0, f1.out);
    var f2 :- RoundStage(l1, k2, t);
    var l2 :- XorOf(r0, f2.out);
    var final :- Permute(l2 + l1, t.ip1);
    Ok(Stage(final, [InitialPermutationHeader, IpResult(ip), Halves(l0, r0), RoundHeader(1)]
                    + f1.trace + [Round1Left(l1), Swapped(r0, l1), RoundHeader(2)]
                    + f2.trace + [Round2Left(l2), FinalOutput(final)]))
  }

  /**
    What `sdes_process(text, key, tables, encrypt)` computes: the final block and the whole
    trace, or the exception it raises. Decryption runs the same network with K1 and K2 swapped.
  */
  function SdesRun(text: string, key: string, t: Tables, encrypt: bool): (r: Result<Stage>)
    ensures r.Err? ==> r.error == IndexError
    ensures r.Ok? ==> |r.value.out| == |t.ip1| && |r.value.trace| == if encrypt then 30 else 31
  {
    var ks :- KeySchedule(key, t);
    var f :- if encrypt then Feistel(text, ks.k1, ks.k2, t) else Feistel(text, ks.k2, ks.k1, t);
    Ok(Stage(f.out, ks.trace + (if encrypt then [] else [KeysReversed]) + f.trace))
  }

  /** Lines 93-113 of `sdes_process`: the key schedule, appending its seven entries. */
  method GenerateSubKeys(key: string, t: Tables, log: Log<Entry>) returns (out: Result<(string, string)>)
    modifies log
    ensures var ks := KeySchedule(key, t);
      && (ks.Ok? ==> out == Ok((ks.value.k1, ks.value.k2)) && log.entries == old(log.entries) + ks.value.trace)
      && (ks.Err? ==> out == Err(ks.error))
  {
    log.Append(KeyGenerationHeader);
    var p10 :- Permute(key, t.p10);
    log.Append(P10Result(p10));
    var l, r := Take(p10, 5), Drop(p10, 5);
    log.Append(Split(l, r));
    var l1, r1 := LeftShift(l, 1), LeftShift(r, 1);
    log.Append(Shifted1(l1, r1));
    var k1 :- Permute(l1 + r1, t.p8);
    log.Append(SubKey1(k1));
    var l2, r2 := LeftShift(l1, 2), LeftShift(r1, 2);
    log.Append(Shifted2(l2, r2));
    var k2 :- Permute(l2 + r2, t.p8);
    log.Append(SubKey2(k2));
    return Ok((k1, k2));
  }

  /** One round of `sdes_process` up to P4: EP, XOR with the round key, S0 and S1, P4. */
  method Round(half: string, k: string, t: Tables, log: Log<Entry>) returns (out: Result<string>)
    modifies log
    ensures var st := RoundStage(half, k, t);
      && (st.Ok? ==> out == Ok(st.value.out) && log.entries == old(log.entries) + st.value.trace)
      && (st.Err? ==> out == Err(st.error))
  {
    StandardSBoxes();
    ghost var start := log.entries;
    var ep :- Permute(half, t.ep);
    log.Append(Expanded(ep));
    var x :- Xor(ep, k);
    log.Append(KeyMixed(x));
    ghost var added := [Expanded(ep), KeyMixed(x)];
    assert log.entries == start + added;
    var s0 :- SBox(Take(x, 4), S0, "S0", log);
    ghost var t0 := SBoxStage(Take(x, 4), S0, "S0").value.trace;
    Regroup(start, added, t0);
    added := added + t0;
    var s1 :- SBox(Drop(x, 4), S1, "S1", log);
    ghost var t1 := SBoxStage(Drop(x, 4), S1, "S1").value.trace;
    Regroup(start, added, t1);
    added := added + t1;
    var p4 :- Permute(s0 + s1, t.p4);
    log.Append(P4Result(p4));
    Regroup(start, added, [P4Result(p4)]);
    added := added + [P4Result(p4)];
    return Ok(p4);
  }

  /** Lines 119-163 of `sdes_process`: IP, two rounds with a swap between them, IP-1. */
  method Network(text: string, k1: string, k2: string, t: Tables, log: Log<Entry>) returns (out: Result<string>)
    modifies log
    ensures var f := Feistel(text, k1, k2, t);
      && (f.Ok? ==> out == Ok(f.value.out) && log.entries == old(log.entries) + f.value.trace)
      && (f.Err? ==> out == Err(f.error))
  {
    // The log is `start + added`, where `added` grows in the groups that `Feistel` concatenates.
    ghost var start := log.entries;
    log.Append(InitialPermutationHeader);
    var ip :- Permute(text, t.ip);
    log.Append(IpResult(ip));
    var l0, r0 := Take(ip, 4), Drop(ip, 4);
    log.Append(Halves(l0, r0));
    log.Append(RoundHeader(1));
    ghost var added := [InitialPermutationHeader, IpResult(ip), Halves(l0, r0), RoundHeader(1)];
    assert log.entries == start + added;

    var p4 :- Round(r0, k1, t, log);
    ghost var f1 := RoundStage(r0, k1, t).value;
    Regroup(start, added, f1.trace);
    added := added + f1.trace;
    var l1 :- Xor(l0, p4);
    log.Append(Round1Left(l1));
    log.Append(Swapped(r0, l1));
    log.Append(RoundHeader(2));
    RegroupThree(start, added, Round1Left(l1), Swapped(r0, l1), RoundHeader(2));
    added := added + [Round1Left(l1), Swapped(r0, l1), RoundHeader(2)];

    var q4 :- Round(l1, k2, t, log);
    ghost var f2 := RoundStage(l1, k2, t).value;
    Regroup(start, added, f2.trace);
    added := added + f2.trace;
    var l2 :- Xor(r0, q4);
    log.Append(Round2Left(l2));
    var final :- Permute(l2 + l1, t.ip1);
    log.Append(FinalOutput(final));
    RegroupTwo(start, added, Round2Left(l2), FinalOutput(final));
    added := added + [Round2Left(l2), FinalOutput(final)];
    return Ok(final);
  }

  /** `sdes_process`: key schedule, key swap for decryption, then the network. */
  method Process(text: string, key: string, t: Tables, encrypt: bool) returns (out: Result<Stage>)
    ensures out == SdesRun(text, key, t, encrypt)
  {
    var log := new Log<Entry>();
    var keys :- GenerateSubKeys(key, t, log);
    var k1, k2 := keys.0, keys.1;
    if !encrypt {
      k1, k2 := k2, k1;
      log.Append(KeysReversed);
    }
    ghost var ks := KeySchedule(key, t).value;
    ghost var keyTrace := ks.trace + (if encrypt then [] else [KeysReversed]);
    assert log.entries == keyTrace;
    var final :- Network(text, k1, k2, t, log);
    ghost var f := Feistel(text, k1, k2, t).value;
    assert SdesRun(text, key, t, encrypt) == Ok(Stage(final, keyTrace + f.trace));
    return Ok(Stage(final, log.entries));
  }
}
