/** Single-parity XOR coding satisfies the laws asked of the Reed-Solomon library. */
module XorCode {
  import opened Base
  import opened ErasureCodec

  // The XOR of one byte column of the shards.
  function Column(shards: seq<Shard>, size: nat, b: nat): bv8
    requires b < size && Uniform(shards, size)
  {
    if shards == [] then 0
    else Column(shards[..|shards| - 1], size, b) ^ shards[|shards| - 1][b]
  }

  function Parity(shards: seq<Shard>, size: nat): (p: Shard)
    requires Uniform(shards, size)
    ensures |p| == size
  {
    seq(size, b requires 0 <= b < size => Column(shards, size, b))
  }

  // Replace the last of k+1 equal-sized shards by the XOR of the others.
  function XorEncode(k: nat, shards: seq<Shard>): Option<seq<Shard>> {
    if |shards| != k + 1 || !Uniform(shards, |shards[k]|) || |shards[k]| == 0 then None
    else Some(shards[..k] + [Parity(shards[..k], |shards[k]|)])
  }

  function Fill(slots: seq<Option<Shard>>, missing: Shard): seq<Option<Shard>> {
    seq(|slots|, i requires 0 <= i < |slots| => if slots[i].Some? then slots[i] else Some(missing))
  }

  function PresentShards(slots: seq<Option<Shard>>): seq<Shard> {
    if slots == [] then []
    else
      PresentShards(slots[..|slots| - 1])
      + (if slots[|slots| - 1].Some? then [slots[|slots| - 1].value] else [])
  }

  // Put the XOR of the present shards into the missing slot, if there is one.
  function XorReconstruct(k: nat, slots: seq<Option<Shard>>): Option<seq<Option<Shard>>> {
    var shards := PresentShards(slots);
    if |slots| != k + 1 || Present(slots) < k || shards == [] || !Uniform(shards, |shards[0]|) then None
    else Some(Fill(slots, Parity(shards, |shards[0]|)))
  }

  function Code(k: nat): ReedSolomon {
    ReedSolomon((shards: seq<Shard>) => XorEncode(k, shards),
                (slots: seq<Option<Shard>>) => XorReconstruct(k, slots))
  }

  // ---------- The columns of a codeword XOR to zero ----------

  lemma CodewordColumn(data: seq<Shard>, size: nat, b: nat)
    requires b < size && Uniform(data, size)
    ensures Column(data + [Parity(data, size)], size, b) == 0
  {
    var c := data + [Parity(data, size)];
    assert c[..|c| - 1] == data;
  }

  lemma {:induction false} PresentCount(slots: seq<Option<Shard>>)
    ensures |PresentShards(slots)| == Present(slots) <= |slots|
    decreases |slots|
  {
    if slots != [] {
      PresentCount(slots[..|slots| - 1]);
    }
  }

  lemma {:induction false} PresentSize(slots: seq<Option<Shard>>, c: seq<Shard>, size: nat)
    requires PartOf(slots, c) && Uniform(c, size)
    ensures Uniform(PresentShards(slots), size)
    decreases |slots|
  {
    if slots != [] {
      PresentSize(slots[..|slots| - 1], c[..|slots| - 1], size);
    }
  }

  // With at most one slot missing, the column of the present shards is that of
  // the codeword, with the missing byte taken out.
  lemma {:induction false} PresentColumn(slots: seq<Option<Shard>>, c: seq<Shard>, size: nat, b: nat, i: nat)
    requires PartOf(slots, c) && Uniform(c, size) && b < size
    requires i < |slots| && slots[i].None? && Present(slots) + 1 == |slots|
    ensures Uniform(PresentShards(slots), size)
    ensures Column(PresentShards(slots), size, b) ^ c[i][b] == Column(c, size, b)
    decreases |slots|
  {
    var last := |slots| - 1;
    var front, code := slots[..last], c[..last];
    PresentSize(slots, c, size);
    PresentCount(front);
    if slots[last].None? {
      AllPresentColumn(front, code, size, b);
      OnlyMissing(front, i);
      assert front == slots[..last] && i == last;
      assert PresentShards(slots) == PresentShards(front) == code;
    } else {
      PresentColumn(front, code, size, b, i);
      var shards := PresentShards(slots);
      assert shards[..|shards| - 1] == PresentShards(front);
      var x, y, z := Column(PresentShards(front), size, b), c[last][b], c[i][b];
      assert (x ^ y) ^ z == (x ^ z) ^ y;
    }
  }

  lemma {:induction false} AllPresentColumn(slots: seq<Option<Shard>>, c: seq<Shard>, size: nat, b: nat)
    requires PartOf(slots, c) && Uniform(c, size) && b < size && Present(slots) == |slots|
    ensures PresentShards(slots) == c
    decreases |slots|
  {
    if slots != [] {
      var last := |slots| - 1;
      PresentCount(slots[..last]);
      AllPresentColumn(slots[..last], c[..last], size, b);
      assert c == c[..last] + [c[last]];
    }
  }

  // If nothing is missing from the slots, slot i cannot be the missing one.
  lemma {:induction false} OnlyMissing(slots: seq<Option<Shard>>, i: nat)
    requires Present(slots) == |slots|
    ensures i < |slots| ==> slots[i].Some?
    decreases |slots|
  {
    if slots != [] {
      PresentCount(slots[..|slots| - 1]);
      OnlyMissing(slots[..|slots| - 1], i);
    }
  }

  lemma {:induction false} FindMissing(slots: seq<Option<Shard>>) returns (i: nat)
    requires Present(slots) < |slots|
    ensures i < |slots| && slots[i].None?
    decreases |slots|
  {
    var last := |slots| - 1;
    if slots[last].None? {
      i := last;
    } else {
      i := FindMissing(slots[..last]);
    }
  }

  lemma {:induction false} OthersPresent(slots: seq<Option<Shard>>, i: nat, j: nat)
    requires i < |slots| && j < |slots| && i != j && slots[i].None? && Present(slots) + 1 == |slots|
    ensures slots[j].Some?
    decreases |slots|
  {
    var last := |slots| - 1;
    PresentCount(slots[..last]);
    if slots[last].None? {
      OnlyMissing(slots[..last], i);
      OnlyMissing(slots[..last], j);
    } else if j != last {
      OthersPresent(slots[..last], i, j);
    }
  }

  // ---------- The laws ----------

  lemma EncodeIsLawful(k: nat)
    requires k >= 1
    ensures EncodeLaw(Code(k), k, 1)
  {
    forall shards: seq<Shard>, size: nat | |shards| == k + 1 && size > 0 && Uniform(shards, size)
      ensures var r := Code(k).encode(shards);
              r.Some? && |r.value| == k + 1 && Uniform(r.value, size) && r.value[..k] == shards[..k]
    {
      assert |shards[k]| == size;
    }
  }

  lemma ReconstructsCodeword(k: nat, shards: seq<Shard>, slots: seq<Option<Shard>>)
    requires k >= 1 && XorEncode(k, shards).Some?
    requires PartOf(slots, XorEncode(k, shards).value) && Present(slots) >= k
    ensures XorReconstruct(k, slots) == Some(Whole(XorEncode(k, shards).value))
  {
    var c := XorEncode(k, shards).value;
    var size := |shards[k]|;
    assert Uniform(c, size);
    var present := PresentShards(slots);
    PresentCount(slots);
    PresentSize(slots, c, size);
    assert |present[0]| == size;
    var p := Parity(present, size);
    if Present(slots) == k + 1 {
      forall j | 0 <= j < |slots| ensures Fill(slots, p)[j] == Some(c[j]) {
        OnlyMissing(slots, j);
      }
    } else {
      var i := FindMissing(slots);
      forall b | 0 <= b < size ensures p[b] == c[i][b] {
        PresentColumn(slots, c, size, b, i);
        CodewordColumn(shards[..k], size, b);
        var x, y := Column(present, size, b), c[i][b];
        assert x ^ y == 0 ==> x == y;
      }
      assert p == c[i];
      forall j | 0 <= j < |slots| ensures Fill(slots, p)[j] == Some(c[j]) {
        if j != i {
          OthersPresent(slots, i, j);
        }
      }
    }
    assert Fill(slots, p) == Whole(c);
  }

  // The hypotheses about the coding library can be met, for every K.
  lemma XorIsLawful(k: nat)
    requires k >= 1
    ensures Lawful(Code(k), k, 1)
  {
    EncodeIsLawful(k);
    forall shards: seq<Shard>, slots: seq<Option<Shard>> |
      |shards| == k + 1 && Code(k).encode(shards).Some? && PartOf(slots, Code(k).encode(shards).value)
      && Present(slots) >= k
      ensures Code(k).reconstruct(slots) == Some(Whole(Code(k).encode(shards).value))
    {
      ReconstructsCodeword(k, shards, slots);
    }
  }
}
