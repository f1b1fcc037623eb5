/**
  What the S-DES engine guarantees: the shape of every stage, the key schedule as
  rotations of the P10 halves, decryption as the network run with the round keys
  swapped, the Feistel round trip for every choice of tables that makes IP-1 the
  inverse of IP, and the textbook vector.
*/
module SdesFacts {
  import opened Wrappers
  import opened BitStrings
  import opened Sdes

  /** An S-box stage that succeeds yields two bits and two trace entries. */
  lemma SBoxStageShape(bits: string, box: seq<seq<int>>, name: string)
    requires IsBits(bits) && IsSBox(box) && |bits| >= 4
    ensures SBoxStage(bits, box, name).Ok?
    ensures var st := SBoxStage(bits, box, name).value;
      && st.out == SBoxLookup(bits, box)
      && st.trace == [SBoxRowColumn(name, [bits[0], bits[3]], Row(bits), [bits[1], bits[2]], Column(bits)),
                      SBoxResult(name, box[Row(bits)][Column(bits)], st.out)]
  {
  }

  /** A round that succeeds yields |P4| bits and seven trace entries. */
  lemma RoundStageShape(half: string, k: string, t: Tables)
    requires RoundStage(half, k, t).Ok?
    ensures var st := RoundStage(half, k, t).value;
      |st.out| == |t.p4| && IsBits(st.out) && |st.trace| == 7
  {
    StandardSBoxes();
    var ep := Permute(half, t.ep).value;
    var x := XorOf(ep, k).value;
    var s0 := SBoxStage(Take(x, 4), S0, "S0").value;
    var s1 := SBoxStage(Drop(x, 4), S1, "S1").value;
    PermuteBits(s0.out + s1.out, t.p4);
  }

  /** The tables the network needs so that both rounds run: halves of four bits enter EP and S0/S1 see four bits each. */
  predicate NetworkTables(t: Tables) {
    && IsInversePair(t.ip, t.ip1) && |t.ip| == 8
    && Indexes(t.ep, 4) && |t.ep| >= 8
    && Indexes(t.p4, 4) && |t.p4| >= 4
  }

  /** With such tables a round on a four-bit half succeeds for any round key at least as long as EP. */
  lemma RoundSucceeds(half: string, k: string, t: Tables)
    requires NetworkTables(t) && |half| == 4 && |t.ep| <= |k|
    ensures RoundStage(half, k, t).Ok?
    ensures |RoundStage(half, k, t).value.out| == |t.p4| && IsBits(RoundStage(half, k, t).value.out)
  {
    StandardSBoxes();
    PermuteInRange(half, t.ep);
    var ep := Permute(half, t.ep).value;
    var x := XorOf(ep, k).value;
    assert |x| >= 8;
    assert IsBits(Take(x, 4)) && IsBits(Drop(x, 4));
    var s0 := SBoxStage(Take(x, 4), S0, "S0").value;
    var s1 := SBoxStage(Drop(x, 4), S1, "S1").value;
    PermuteInRange(s0.out + s1.out, t.p4);
    RoundStageShape(half, k, t);
  }

  /** The network that succeeds yields |IP-1| bits, whatever the text, and 23 trace entries. */
  lemma FeistelShape(text: string, k1: string, k2: string, t: Tables)
    requires Feistel(text, k1, k2, t).Ok?
    ensures var f := Feistel(text, k1, k2, t).value;
      |f.out| == |t.ip1| && IsBits(f.out) && |f.trace| == 23
  {
    var ip := Permute(text, t.ip).value;
    var l0, r0 := Take(ip, 4), Drop(ip, 4);
    RoundStageShape(r0, k1, t);
    var l1 := XorOf(l0, RoundStage(r0, k1, t).value.out).value;
    RoundStageShape(l1, k2, t);
    var l2 := XorOf(r0, RoundStage(l1, k2, t).value.out).value;
    PermuteBits(l2 + l1, t.ip1);
  }

  /** The key schedule that succeeds yields two keys of |P8| characters and seven trace entries. */
  lemma KeyScheduleShape(key: string, t: Tables)
    requires KeySchedule(key, t).Ok?
    ensures var ks := KeySchedule(key, t).value;
      |ks.k1| == |t.p8| && |ks.k2| == |t.p8| && |ks.trace| == 7
  {
  }

  /**
    The key schedule raises exactly when an entry of P10 lies outside Python's range for
    the key, or an entry of P8 outside it for the |P10| characters of the shifted halves.
  */
  lemma KeyScheduleSucceedsExactly(key: string, t: Tables)
    ensures KeySchedule(key, t).Ok? <==>
      && (forall i :: 0 <= i < |t.p10| ==> InPyRange(t.p10[i] - 1, |key|))
      && (forall i :: 0 <= i < |t.p8| ==> InPyRange(t.p8[i] - 1, |t.p10|))
  {
    PermuteSucceeds(key, t.p10);
    if Permute(key, t.p10).Ok? {
      var p10 := Permute(key, t.p10).value;
      var l1, r1 := LeftShift(Take(p10, 5), 1), LeftShift(Drop(p10, 5), 1);
      assert |l1 + r1| == |t.p10|;
      PermuteSucceeds(l1 + r1, t.p8);
      var l2, r2 := LeftShift(l1, 2), LeftShift(r1, 2);
      assert |l2 + r2| == |t.p10|;
      PermuteSucceeds(l2 + r2, t.p8);
    }
  }

  /**
    In particular the key schedule succeeds when every entry of P10 is a position of
    the key and every entry of P8 a position of the P10 output.
  */
  lemma KeyScheduleSucceeds(key: string, t: Tables)
    requires Indexes(t.p10, |key|) && Indexes(t.p8, |t.p10|)
    ensures KeySchedule(key, t).Ok?
  {
    PermuteInRange(key, t.p10);
    var p10 := Permute(key, t.p10).value;
    var l1, r1 := LeftShift(Take(p10, 5), 1), LeftShift(Drop(p10, 5), 1);
    assert |l1 + r1| == |t.p10|;
    PermuteInRange(l1 + r1, t.p8);
    var l2, r2 := LeftShift(l1, 2), LeftShift(r1, 2);
    assert |l2 + r2| == |t.p10|;
    PermuteInRange(l2 + r2, t.p8);
  }

  /** Shifting left by 1 is the rotation by 1, also for an empty half. */
  lemma ShiftOneRotates(s: string)
    ensures LeftShift(s, 1) == Rotated(s, 1)
  {
    LeftShiftRotates(s, 1);
  }

  /**
    The halves of the key schedule: the shift by 1 rotates each P10 half by one place,
    and the further shift by 2 leaves each half rotated by three places in all.
  */
  lemma KeyScheduleRotates(key: string, t: Tables)
    requires KeySchedule(key, t).Ok?
    ensures var tr := KeySchedule(key, t).value.trace;
      && tr[2].Split? && tr[3].Shifted1? && tr[5].Shifted2?
      && tr[1] == P10Result(tr[2].left + tr[2].right)
      && tr[3] == Shifted1(Rotated(tr[2].left, 1), Rotated(tr[2].right, 1))
      && tr[5] == Shifted2(Rotated(tr[2].left, 3), Rotated(tr[2].right, 3))
  {
    var p10 := Permute(key, t.p10).value;
    var l, r := Take(p10, 5), Drop(p10, 5);
    var l1, r1 := LeftShift(l, 1), LeftShift(r, 1);
    var l2, r2 := LeftShift(l1, 2), LeftShift(r1, 2);
    var tr := KeySchedule(key, t).value.trace;
    assert tr[1] == P10Result(p10) && tr[2] == Split(l, r);
    assert tr[3] == Shifted1(l1, r1) && tr[5] == Shifted2(l2, r2);
    assert l + r == p10;
    HalfRotations(l);
    HalfRotations(r);
  }

  /** One half of the key schedule: rotated by one place, then by three in all. */
  lemma HalfRotations(h: string)
    ensures LeftShift(h, 1) == Rotated(h, 1)
    ensures LeftShift(LeftShift(h, 1), 2) == Rotated(h, 3)
  {
    ShiftOneRotates(h);
    LeftShiftThenShift(h);
  }

  /** Encryption: the key schedule's seven entries, then the network under K1 then K2. */
  lemma EncryptRunsNetwork(text: string, key: string, t: Tables)
    requires KeySchedule(key, t).Ok?
    ensures var ks := KeySchedule(key, t).value;
      var f := Feistel(text, ks.k1, ks.k2, t);
      && (SdesRun(text, key, t, true).Ok? <==> f.Ok?)
      && (f.Ok? ==> SdesRun(text, key, t, true).value.out == f.value.out)
      && (f.Ok? ==> SdesRun(text, key, t, true).value.trace == ks.trace + f.value.trace)
  {
    var ks := KeySchedule(key, t).value;
    assert ks.trace + [] == ks.trace;
  }

  /**
    Decryption differs from encryption only in the key order: the same seven key-schedule
    entries, one extra entry, then the network under K2 then K1.
  */
  lemma DecryptRunsSwappedNetwork(text: string, key: string, t: Tables)
    requires KeySchedule(key, t).Ok?
    ensures var ks := KeySchedule(key, t).value;
      var f := Feistel(text, ks.k2, ks.k1, t);
      && (SdesRun(text, key, t, false).Ok? <==> f.Ok?)
      && (f.Ok? ==> SdesRun(text, key, t, false).value.out == f.value.out)
      && (f.Ok? ==> SdesRun(text, key, t, false).value.trace == ks.trace + [KeysReversed] + f.value.trace)
  {
  }

  /**
    The whole run that succeeds yields |IP-1| bits and a trace of 30 entries when
    encrypting and 31 when decrypting.
  */
  lemma SdesRunShape(text: string, key: string, t: Tables, encrypt: bool)
    requires SdesRun(text, key, t, encrypt).Ok?
    ensures var r := SdesRun(text, key, t, encrypt).value;
      && |r.out| == |t.ip1| && IsBits(r.out)
      && |r.trace| == if encrypt then 30 else 31
  {
    KeyScheduleShape(key, t);
    var ks := KeySchedule(key, t).value;
    if encrypt {
      FeistelShape(text, ks.k1, ks.k2, t);
    } else {
      FeistelShape(text, ks.k2, ks.k1, t);
    }
  }

  /**
    The Feistel round trip: running the network with the round keys in the opposite
    order undoes it, for any EP and P4 of the needed shape and any round keys long enough.
  */
  lemma FeistelRoundTrip(text: string, k1: string, k2: string, t: Tables)
    requires NetworkTables(t) && |t.ep| <= |k1| && |t.ep| <= |k2|
    requires |text| == 8 && IsBits(text)
    ensures Feistel(text, k1, k2, t).Ok?
    ensures Feistel(Feistel(text, k1, k2, t).value.out, k2, k1, t).Ok?
    ensures Feistel(Feistel(text, k1, k2, t).value.out, k2, k1, t).value.out == text
  {
    // Encryption.
    PermuteUndone(text, t.ip, t.ip1);
    var ip := Permute(text, t.ip).value;
    PermuteBits(text, t.ip);
    var l0, r0 := Take(ip, 4), Drop(ip, 4);
    assert l0 + r0 == ip;
    RoundSucceeds(r0, k1, t);
    var f1 := RoundStage(r0, k1, t).value;
    var l1 := XorBits(l0, f1.out);
    RoundSucceeds(l1, k2, t);
    var f2 := RoundStage(l1, k2, t).value;
    var l2 := XorBits(r0, f2.out);
    PermuteInRange(l2 + l1, t.ip1);
    var c := Permute(l2 + l1, t.ip1).value;
    assert Feistel(text, k1, k2, t) == Ok(Stage(c, Feistel(text, k1, k2, t).value.trace));

    // Decryption: IP undoes IP-1, the halves come back swapped, each XOR cancels.
    PermuteUndone(l2 + l1, t.ip1, t.ip);
    assert Take(l2 + l1, 4) == l2 && Drop(l2 + l1, 4) == l1;
    XorTwice(r0, f2.out);
    XorTwice(l0, f1.out);
    assert XorBits(l2, f2.out) == r0;
    assert XorBits(l1, f1.out) == l0;
  }

  /**
    `sdes_process` decrypts what it encrypts: any key that P10 reads in full, any P8
    reading inside the P10 output and at least as long as EP, and any network tables
    whose IP-1 is the inverse of IP.
  */
  lemma SdesRoundTrip(text: string, key: string, t: Tables)
    requires Indexes(t.p10, |key|) && Indexes(t.p8, |t.p10|) && |t.ep| <= |t.p8|
    requires NetworkTables(t)
    requires |text| == 8 && IsBits(text)
    ensures SdesRun(text, key, t, true).Ok?
    ensures SdesRun(SdesRun(text, key, t, true).value.out, key, t, false).Ok?
    ensures SdesRun(SdesRun(text, key, t, true).value.out, key, t, false).value.out == text
  {
    KeyScheduleSucceeds(key, t);
    KeyScheduleShape(key, t);
    var ks := KeySchedule(key, t).value;
    FeistelRoundTrip(text, ks.k1, ks.k2, t);
    var c := Feistel(text, ks.k1, ks.k2, t).value.out;
    EncryptRunsNetwork(text, key, t);
    DecryptRunsSwappedNetwork(c, key, t);
  }

  /** The textbook tables. */
  const Standard := Tables([3, 5, 2, 7, 4, 10, 1, 9, 8, 6], [6, 3, 7, 4, 8, 5, 10, 9],
                           [2, 6, 3, 1, 4, 8, 5, 7], [4, 1, 3, 5, 7, 2, 8, 6],
                           [4, 1, 2, 3, 2, 3, 4, 1], [2, 4, 3, 1])

  // The textbook vector. Each lemma takes its strings as parameters equal to the
  // textbook values and is proved from the lemmas for the stages below it.

  /** P10 of the textbook key. */
  lemma StandardP10(bits: string)
    requires bits == "1010000010"
    ensures Permute(bits, Standard.p10).Ok? && Permute(bits, Standard.p10).value == "1000001100"
  {
    PermuteInRange(bits, Standard.p10);
    var r := Permute(bits, Standard.p10).value;
    forall i | 0 <= i < 10
      ensures r[i] == "1000001100"[i]
    {
      if i == 0 {
      } else if i == 1 {
      } else if i == 2 {
      } else if i == 3 {
      } else if i == 4 {
      } else if i == 5 {
      } else if i == 6 {
      } else if i == 7 {
      } else if i == 8 {
      }
    }
  }

  /** P8 of the halves shifted by 1 (K1) and of the halves shifted by 2 more (K2). */
  lemma StandardP8(bits: string)
    requires bits == "0000111000" || bits == "0010000011"
    ensures Permute(bits, Standard.p8).Ok?
    ensures Permute(bits, Standard.p8).value == if bits == "0000111000" then "10100100" else "01000011"
  {
    PermuteInRange(bits, Standard.p8);
    var r := Permute(bits, Standard.p8).value;
    var want := if bits == "0000111000" then "10100100" else "01000011";
    forall i | 0 <= i < 8
      ensures r[i] == want[i]
    {
      if i == 0 {
      } else if i == 1 {
      } else if i == 2 {
      } else if i == 3 {
      } else if i == 4 {
      } else if i == 5 {
      } else if i == 6 {
      }
    }
  }

  /** IP of the plaintext and of the ciphertext. */
  lemma StandardIp(bits: string)
    requires bits == "10111101" || bits == "01110101"
    ensures Permute(bits, Standard.ip).Ok?
    ensures Permute(bits, Standard.ip).value == if bits == "10111101" then "01111110" else "11101100"
  {
    PermuteInRange(bits, Standard.ip);
    var r := Permute(bits, Standard.ip).value;
    var want := if bits == "10111101" then "01111110" else "11101100";
    forall i | 0 <= i < 8
      ensures r[i] == want[i]
    {
      if i == 0 {
      } else if i == 1 {
      } else if i == 2 {
      } else if i == 3 {
      } else if i == 4 {
      } else if i == 5 {
      } else if i == 6 {
      }
    }
  }

  /** IP-1 at the end of encryption and at the end of decryption. */
  lemma StandardIp1(bits: string)
    requires bits == "11101100" || bits == "01111110"
    ensures Permute(bits, Standard.ip1).Ok?
    ensures Permute(bits, Standard.ip1).value == if bits == "11101100" then "01110101" else "10111101"
  {
    PermuteInRange(bits, Standard.ip1);
    var r := Permute(bits, Standard.ip1).value;
    var want := if bits == "11101100" then "01110101" else "10111101";
    forall i | 0 <= i < 8
      ensures r[i] == want[i]
    {
      if i == 0 {
      } else if i == 1 {
      } else if i == 2 {
      } else if i == 3 {
      } else if i == 4 {
      } else if i == 5 {
      } else if i == 6 {
      }
    }
  }

  /** EP of the half that meets K1 and of the half that meets K2. */
  lemma StandardEp(bits: string)
    requires bits == "1110" || bits == "1100"
    ensures Permute(bits, Standard.ep).Ok?
    ensures Permute(bits, Standard.ep).value == if bits == "1110" then "01111101" else "01101001"
  {
    PermuteInRange(bits, Standard.ep);
    var r := Permute(bits, Standard.ep).value;
    var want := if bits == "1110" then "01111101" else "01101001";
    forall i | 0 <= i < 8
      ensures r[i] == want[i]
    {
      if i == 0 {
      } else if i == 1 {
      } else if i == 2 {
      } else if i == 3 {
      } else if i == 4 {
      } else if i == 5 {
      } else if i == 6 {
      }
    }
  }

  /** P4 of the S-box outputs under K1 and under K2. */
  lemma StandardP4(bits: string)
    requires bits == "1110" || bits == "0000"
    ensures Permute(bits, Standard.p4).Ok?
    ensures Permute(bits, Standard.p4).value == if bits == "1110" then "1011" else "0000"
  {
    PermuteInRange(bits, Standard.p4);
    var r := Permute(bits, Standard.p4).value;
    var want := if bits == "1110" then "1011" else "0000";
    forall i | 0 <= i < 4
      ensures r[i] == want[i]
    {
      if i == 0 {
      } else if i == 1 {
      } else if i == 2 {
      }
    }
  }

  /** The XORs of the round function under the textbook keys. */
  lemma StandardKeyMixing(a: string, k: string)
    requires (a == "01111101" && k == "10100100") || (a == "01101001" && k == "01000011")
    ensures XorOf(a, k).Ok?
    ensures a == "01111101" ==> XorOf(a, k).value == "11011001"
    ensures a == "01101001" ==> XorOf(a, k).value == "00101010"
  {
    XorBitsValues(a, k);
    var r := XorBits(a, k);
    var want := if a == "01111101" then "11011001" else "00101010";
    forall i | 0 <= i < 8
      ensures r[i] == want[i]
    {
      if i == 0 {
      } else if i == 1 {
      } else if i == 2 {
      } else if i == 3 {
      } else if i == 4 {
      } else if i == 5 {
      } else if i == 6 {
      }
    }
  }

  /** The XORs of the halves with the round outputs. */
  lemma StandardHalfMixing(a: string, b: string)
    requires (a == "0111" || a == "1110" || a == "1100") && (b == "1011" || b == "0000")
    ensures XorOf(a, b).Ok?
    ensures a == "0111" && b == "1011" ==> XorOf(a, b).value == "1100"
    ensures a == "1110" && b == "0000" ==> XorOf(a, b).value == "1110"
    ensures a == "1100" && b == "1011" ==> XorOf(a, b).value == "0111"
  {
    if a == "0111" && b == "1011" {
      assert XorOf("0111", "1011").value == "1100";
    } else if a == "1110" && b == "0000" {
      assert XorOf("1110", "0000").value == "1110";
    } else if a == "1100" && b == "1011" {
      assert XorOf("1100", "1011").value == "0111";
    }
  }

  /** The key schedule, from the values of its three permutations. */
  lemma KeyScheduleFrom(key: string, t: Tables, p10: string, k1: string, k2: string)
    requires Permute(key, t.p10).Ok? && Permute(key, t.p10).value == p10
    requires Permute(LeftShift(Take(p10, 5), 1) + LeftShift(Drop(p10, 5), 1), t.p8).Ok?
    requires Permute(LeftShift(Take(p10, 5), 1) + LeftShift(Drop(p10, 5), 1), t.p8).value == k1
    requires Permute(LeftShift(LeftShift(Take(p10, 5), 1), 2) + LeftShift(LeftShift(Drop(p10, 5), 1), 2), t.p8).Ok?
    requires Permute(LeftShift(LeftShift(Take(p10, 5), 1), 2) + LeftShift(LeftShift(Drop(p10, 5), 1), 2), t.p8).value == k2
    ensures KeySchedule(key, t).Ok? && KeySchedule(key, t).value.k1 == k1 && KeySchedule(key, t).value.k2 == k2
  {
  }

  /** The textbook key gives the textbook round keys K1 = 10100100 and K2 = 01000011. */
  lemma StandardKeys(key: string)
    requires key == "1010000010"
    ensures KeySchedule(key, Standard).Ok?
    ensures KeySchedule(key, Standard).value.k1 == "10100100"
    ensures KeySchedule(key, Standard).value.k2 == "01000011"
  {
    StandardP10(key);
    var p10 := Permute(key, Standard.p10).value;
    StandardShifts(p10);
    var l1, r1 := LeftShift(Take(p10, 5), 1), LeftShift(Drop(p10, 5), 1);
    StandardP8(l1 + r1);
    StandardP8(LeftShift(l1, 2) + LeftShift(r1, 2));
    KeyScheduleFrom(key, Standard, p10, "10100100", "01000011");
  }

  /** The split and the two shifts of the textbook P10 output. */
  lemma StandardShifts(p10: string)
    requires p10 == "1000001100"
    ensures LeftShift(Take(p10, 5), 1) + LeftShift(Drop(p10, 5), 1) == "0000111000"
    ensures LeftShift(LeftShift(Take(p10, 5), 1), 2) + LeftShift(LeftShift(Drop(p10, 5), 1), 2) == "0010000011"
  {
    assert Take(p10, 5) == "10000" && Drop(p10, 5) == "01100";
    assert LeftShift("10000", 1) == "00001" && LeftShift("01100", 1) == "11000";
  }

  /** A round, from the value of EP followed by the XOR, the S-box outputs and P4. */
  lemma RoundFrom(half: string, k: string, t: Tables, x: string, s: string, p4: string)
    requires Permute(half, t.ep).Ok? && XorOf(Permute(half, t.ep).value, k).Ok?
    requires XorOf(Permute(half, t.ep).value, k).value == x
    requires IsBits(Take(x, 4)) && IsBits(Drop(x, 4)) && |Take(x, 4)| >= 4 && |Drop(x, 4)| >= 4
    requires SBoxLookup(Take(x, 4), S0) + SBoxLookup(Drop(x, 4), S1) == s
    requires Permute(s, t.p4).Ok? && Permute(s, t.p4).value == p4
    ensures RoundStage(half, k, t).Ok? && RoundStage(half, k, t).value.out == p4
  {
    StandardSBoxes();
  }

  /** EP and the key XOR of the textbook rounds. */
  lemma StandardMixing(half: string, k: string)
    requires (half == "1110" && k == "10100100") || (half == "1100" && k == "01000011")
    ensures Permute(half, Standard.ep).Ok? && XorOf(Permute(half, Standard.ep).value, k).Ok?
    ensures half == "1110" ==> XorOf(Permute(half, Standard.ep).value, k).value == "11011001"
    ensures half == "1100" ==> XorOf(Permute(half, Standard.ep).value, k).value == "00101010"
  {
    if half == "1110" {
      StandardEp(half);
    } else {
      StandardEp(half);
    }
    StandardKeyMixing(Permute(half, Standard.ep).value, k);
  }

  /** The S-box outputs of the textbook rounds. */
  lemma StandardSBoxOutputs(x: string)
    requires x == "11011001" || x == "00101010"
    ensures IsBits(Take(x, 4)) && IsBits(Drop(x, 4)) && |Take(x, 4)| >= 4 && |Drop(x, 4)| >= 4
    ensures x == "11011001" ==> SBoxLookup(Take(x, 4), S0) + SBoxLookup(Drop(x, 4), S1) == "1110"
    ensures x == "00101010" ==> SBoxLookup(Take(x, 4), S0) + SBoxLookup(Drop(x, 4), S1) == "0000"
  {
    StandardSBoxes();
    if x == "11011001" {
      assert Take(x, 4) == "1101" && Drop(x, 4) == "1001";
    } else {
      assert Take(x, 4) == "0010" && Drop(x, 4) == "1010";
    }
  }

  /** The first round of the textbook encryption: F(1110, K1) = 1011. */
  lemma StandardRoundK1(half: string, k: string)
    requires half == "1110" && k == "10100100"
    ensures RoundStage(half, k, Standard).Ok?
    ensures RoundStage(half, k, Standard).value.out == "1011"
  {
    StandardMixing(half, k);
    var x := XorOf(Permute(half, Standard.ep).value, k).value;
    StandardSBoxOutputs(x);
    var s := SBoxLookup(Take(x, 4), S0) + SBoxLookup(Drop(x, 4), S1);
    StandardP4(s);
    RoundFrom(half, k, Standard, x, s, "1011");
  }

  /** The second round of the textbook encryption: F(1100, K2) = 0000. */
  lemma StandardRoundK2(half: string, k: string)
    requires half == "1100" && k == "01000011"
    ensures RoundStage(half, k, Standard).Ok?
    ensures RoundStage(half, k, Standard).value.out == "0000"
  {
    StandardMixing(half, k);
    var x := XorOf(Permute(half, Standard.ep).value, k).value;
    StandardSBoxOutputs(x);
    var s := SBoxLookup(Take(x, 4), S0) + SBoxLookup(Drop(x, 4), S1);
    StandardP4(s);
    RoundFrom(half, k, Standard, x, s, "0000");
  }

  /** The network, from the values of IP, the two round outputs and IP-1. */
  lemma FeistelFrom(text: string, k1: string, k2: string, t: Tables, l0: string, r0: string, f1: string, f2: string, out: string)
    requires Permute(text, t.ip).Ok?
    requires Take(Permute(text, t.ip).value, 4) == l0 && Drop(Permute(text, t.ip).value, 4) == r0
    requires RoundStage(r0, k1, t).Ok? && RoundStage(r0, k1, t).value.out == f1
    requires XorOf(l0, f1).Ok? && RoundStage(XorOf(l0, f1).value, k2, t).Ok?
    requires RoundStage(XorOf(l0, f1).value, k2, t).value.out == f2
    requires XorOf(r0, f2).Ok?
    requires Permute(XorOf(r0, f2).value + XorOf(l0, f1).value, t.ip1).Ok?
    requires Permute(XorOf(r0, f2).value + XorOf(l0, f1).value, t.ip1).value == out
    ensures Feistel(text, k1, k2, t).Ok? && Feistel(text, k1, k2, t).value.out == out
  {
  }

  /** The network under K1 then K2 takes 10111101 to 01110101. */
  lemma StandardEncryption(text: string, k1: string, k2: string)
    requires text == "10111101" && k1 == "10100100" && k2 == "01000011"
    ensures Feistel(text, k1, k2, Standard).Ok?
    ensures Feistel(text, k1, k2, Standard).value.out == "01110101"
  {
    StandardIp(text);
    var ip := Permute(text, Standard.ip).value;
    StandardHalves(ip);
    var l0, r0 := Take(ip, 4), Drop(ip, 4);
    StandardRoundK1(r0, k1);
    var f1 := RoundStage(r0, k1, Standard).value.out;
    StandardHalfMixing(l0, f1);
    var l1 := XorOf(l0, f1).value;
    StandardRoundK2(l1, k2);
    var f2 := RoundStage(l1, k2, Standard).value.out;
    StandardHalfMixing(r0, f2);
    var l2 := XorOf(r0, f2).value;
    StandardJoin(l2, l1);
    StandardIp1(l2 + l1);
    FeistelFrom(text, k1, k2, Standard, l0, r0, f1, f2, "01110101");
  }

  /** The halves that enter IP-1 in the textbook vector. */
  lemma StandardJoin(l: string, r: string)
    requires (l == "1110" && r == "1100") || (l == "0111" && r == "1110")
    ensures l == "1110" ==> l + r == "11101100"
    ensures l == "0111" ==> l + r == "01111110"
  {
  }

  /** The halves after IP in the textbook vector. */
  lemma StandardHalves(ip: string)
    requires ip == "01111110" || ip == "11101100"
    ensures ip == "01111110" ==> Take(ip, 4) == "0111" && Drop(ip, 4) == "1110"
    ensures ip == "11101100" ==> Take(ip, 4) == "1110" && Drop(ip, 4) == "1100"
  {
  }

  /** The network under K2 then K1 takes 01110101 back to 10111101. */
  lemma StandardDecryption(text: string, k1: string, k2: string)
    requires text == "01110101" && k1 == "10100100" && k2 == "01000011"
    ensures Feistel(text, k2, k1, Standard).Ok?
    ensures Feistel(text, k2, k1, Standard).value.out == "10111101"
  {
    StandardIp(text);
    var ip := Permute(text, Standard.ip).value;
    StandardHalves(ip);
    var l0, r0 := Take(ip, 4), Drop(ip, 4);
    StandardRoundK2(r0, k2);
    var f1 := RoundStage(r0, k2, Standard).value.out;
    StandardHalfMixing(l0, f1);
    var l1 := XorOf(l0, f1).value;
    StandardRoundK1(l1, k1);
    var f2 := RoundStage(l1, k1, Standard).value.out;
    StandardHalfMixing(r0, f2);
    var l2 := XorOf(r0, f2).value;
    StandardJoin(l2, l1);
    StandardIp1(l2 + l1);
    FeistelFrom(text, k2, k1, Standard, l0, r0, f1, f2, "10111101");
  }

  /**
    The textbook vector: with the textbook tables and key 1010000010, `sdes_process`
    encrypts 10111101 to 01110101 (not to the 10001010 sometimes quoted for this
    vector) and decrypts 01110101 back to 10111101.
  */
  lemma StandardVector(text: string, key: string)
    requires text == "10111101" && key == "1010000010"
    ensures SdesRun(text, key, Standard, true).Ok?
    ensures SdesRun(text, key, Standard, true).value.out == "01110101"
    ensures SdesRun("01110101", key, Standard, false).Ok?
    ensures SdesRun("01110101", key, Standard, false).value.out == text
  {
    StandardKeys(key);
    var ks := KeySchedule(key, Standard).value;
    StandardEncryption(text, ks.k1, ks.k2);
    StandardDecryption("01110101", ks.k1, ks.k2);
  }
}
