/** Splitting data into K data and M parity fragments and putting it together again. */
module ErasureCodec {
  import opened Base

  type Shard = seq<bv8>

  datatype EcError =
    | InvalidParameters(dataCount: nat, parityCount: nat)
    | EncodeFailed
    | DecodeFailed
    | InsufficientFragments(available: nat, required: nat)

  datatype Fragment = Fragment(index: nat, isData: bool, data: Shard)

  // ---------- The Reed-Solomon library ----------

  // The library's two operations for one choice of K and M. None is an error.
  datatype ReedSolomon = ReedSolomon(
    encode: seq<Shard> -> Option<seq<Shard>>,
    reconstruct: seq<Option<Shard>> -> Option<seq<Option<Shard>>>)

  predicate Uniform(shards: seq<Shard>, size: nat) {
    forall i | 0 <= i < |shards| :: |shards[i]| == size
  }

  function Present<T>(slots: seq<Option<T>>): nat {
    if slots == [] then 0
    else Present(slots[..|slots| - 1]) + (if slots[|slots| - 1].Some? then 1 else 0)
  }

  // The slots hold shards of the codeword, each in its own place.
  ghost predicate PartOf(slots: seq<Option<Shard>>, codeword: seq<Shard>) {
    && |slots| == |codeword|
    && forall i | 0 <= i < |slots| && slots[i].Some? :: slots[i].value == codeword[i]
  }

  function Whole(codeword: seq<Shard>): seq<Option<Shard>> {
    seq(|codeword|, i requires 0 <= i < |codeword| => Some(codeword[i]))
  }

  // Encoding keeps the data shards and the shard size.
  ghost predicate EncodeLaw(rs: ReedSolomon, k: nat, m: nat) {
    forall shards: seq<Shard>, size: nat | |shards| == k + m && size > 0 && Uniform(shards, size) ::
      && rs.encode(shards).Some?
      && |rs.encode(shards).value| == k + m
      && Uniform(rs.encode(shards).value, size)
      && rs.encode(shards).value[..k] == shards[..k]
  }

  // Any K shards of an encoding determine the rest.
  ghost predicate ReconstructLaw(rs: ReedSolomon, k: nat, m: nat) {
    forall shards: seq<Shard>, slots: seq<Option<Shard>> |
      |shards| == k + m && rs.encode(shards).Some? && PartOf(slots, rs.encode(shards).value)
      && Present(slots) >= k ::
      rs.reconstruct(slots) == Some(Whole(rs.encode(shards).value))
  }

  ghost predicate Lawful(rs: ReedSolomon, k: nat, m: nat) {
    k >= 1 && m >= 1 && EncodeLaw(rs, k, m) && ReconstructLaw(rs, k, m)
  }

  // ---------- Splitting ----------

  // The least size at which K fragments cover n bytes.
  function FragmentSize(n: nat, k: nat): (size: nat)
    requires k >= 1
    ensures size * k >= n
    ensures size > 0 ==> (size - 1) * k < n
    ensures n > 0 ==> size > 0
  {
    CeilingCovers(n, k);
    (n + k - 1) / k
  }

  lemma CeilingCovers(n: nat, k: nat)
    requires k >= 1
    ensures var q := (n + k - 1) / k; q * k >= n && (q - 1) * k < n && (n > 0 ==> q > 0)
  {
    var q := (n + k - 1) / k;
    assert n + k - 1 == q * k + (n + k - 1) % k;
    assert (q - 1) * k == q * k - k;
  }

  function Zeros(n: nat): (z: Shard)
    ensures |z| == n
  {
    seq(n, _ => 0)
  }

  // The piece of the data at an offset, padded with zeros to the fragment size.
  function PieceAt(data: Shard, offset: nat, size: nat): (shard: Shard)
    ensures |shard| == size
  {
    var start := Min(offset, |data|);
    var end := Min(offset + size, |data|);
    data[start..end] + Zeros(size - (end - start))
  }

  // Byte j of a piece is the byte of the data there, or zero past its end.
  lemma PieceBytes(data: Shard, offset: nat, size: nat, j: nat)
    requires j < size
    ensures PieceAt(data, offset, size)[j] == if offset + j < |data| then data[offset + j] else 0
  {
  }

  function Piece(data: Shard, size: nat, i: nat): (shard: Shard)
    ensures |shard| == size
  {
    PieceAt(data, i * size, size)
  }

  function Pieces(data: Shard, size: nat, k: nat): (shards: seq<Shard>)
    ensures |shards| == k && Uniform(shards, size)
  {
    seq(k, i requires 0 <= i < k => Piece(data, size, i))
  }

  function Joined(shards: seq<Shard>): Shard {
    if shards == [] then [] else Joined(shards[..|shards| - 1]) + shards[|shards| - 1]
  }

  lemma OnePieceMore(data: Shard, front: Shard, size: nat)
    requires front[..Min(|front|, |data|)] == data[..Min(|front|, |data|)]
    ensures var end := Min(|front| + size, |data|);
            (front + PieceAt(data, |front|, size))[..end] == data[..end]
  {
    var end := Min(|front| + size, |data|);
    if |front| < |data| {
      assert front == data[..|front|];
      assert (front + PieceAt(data, |front|, size))[..end] == data[..|front|] + data[|front|..end];
    } else {
      assert (front + PieceAt(data, |front|, size))[..end] == front[..|data|];
    }
  }

  lemma JoinedOneMore(data: Shard, size: nat, k: nat)
    ensures Joined(Pieces(data, size, k + 1)) == Joined(Pieces(data, size, k)) + PieceAt(data, k * size, size)
  {
    assert Pieces(data, size, k + 1)[..k] == Pieces(data, size, k);
  }

  lemma {:induction false} JoinedLength(data: Shard, size: nat, k: nat)
    ensures |Joined(Pieces(data, size, k))| == k * size
  {
    if k > 0 {
      JoinedLength(data, size, k - 1);
      JoinedOneMore(data, size, k - 1);
      assert k * size == (k - 1) * size + size;
    }
  }

  lemma {:induction false} JoinedPieces(data: Shard, size: nat, k: nat)
    ensures var joined := Joined(Pieces(data, size, k));
            && |joined| == k * size
            && joined[..Min(|joined|, |data|)] == data[..Min(|joined|, |data|)]
  {
    JoinedLength(data, size, k);
    if k > 0 {
      JoinedPieces(data, size, k - 1);
      JoinedOneMore(data, size, k - 1);
      OnePieceMore(data, Joined(Pieces(data, size, k - 1)), size);
    }
  }

  // ---------- Encoding ----------

  function Blank(m: nat, size: nat): (shards: seq<Shard>)
    ensures |shards| == m && Uniform(shards, size)
  {
    seq(m, _ => Zeros(size))
  }

  function AsFragments(shards: seq<Shard>, k: nat): seq<Fragment> {
    seq(|shards|, i requires 0 <= i < |shards| => Fragment(i, i < k, shards[i]))
  }

  function Encoded(rs: ReedSolomon, k: nat, m: nat, data: Shard): Result<seq<Fragment>, EcError>
    requires k >= 1
  {
    if data == [] then Err(EncodeFailed)
    else
      var size := FragmentSize(|data|, k);
      match rs.encode(Pieces(data, size, k) + Blank(m, size))
      case None => Err(EncodeFailed)
      case Some(shards) => Ok(AsFragments(shards, k))
  }

  method Encode(rs: ReedSolomon, k: nat, m: nat, data: Shard) returns (r: Result<seq<Fragment>, EcError>)
    requires k >= 1
    ensures r == Encoded(rs, k, m, data)
  {
    if data == [] {
      return Err(EncodeFailed);
    }
    var size := FragmentSize(|data|, k);
    var shards: seq<Shard> := [];
    for i := 0 to k
      invariant shards == Pieces(data, size, i)
    {
      var start := i * size;
      var end := Min(start + size, |data|);
      var shard := Zeros(size);
      if start < |data| {
        shard := data[start..end] + shard[end - start..];
      }
      assert shard == Piece(data, size, i);
      shards := shards + [shard];
      assert shards == Pieces(data, size, i + 1);
    }
    for j := 0 to m
      invariant shards == Pieces(data, size, k) + Blank(j, size)
    {
      shards := shards + [Zeros(size)];
      assert shards == Pieces(data, size, k) + Blank(j + 1, size);
    }
    var encoded := rs.encode(shards);
    if encoded.None? {
      return Err(EncodeFailed);
    }
    r := Ok(AsFragments(encoded.value, k));
  }

  // ---------- Decoding ----------

  function Contents(fragments: seq<Option<Fragment>>): (slots: seq<Option<Shard>>)
    ensures |slots| == |fragments|
  {
    seq(|fragments|, i requires 0 <= i < |fragments| =>
      if fragments[i].Some? then Some(fragments[i].value.data) else None)
  }

  ghost predicate AllPresent(slots: seq<Option<Shard>>) {
    forall i | 0 <= i < |slots| :: slots[i].Some?
  }

  method Decode(rs: ReedSolomon, k: nat, m: nat, fragments: seq<Option<Fragment>>, originalLen: nat)
    returns (r: Result<Shard, EcError>)
    requires k >= 1
    ensures r == Decoded(rs, k, m, fragments, originalLen)
  {
    if |fragments| != k + m {
      return Err(DecodeFailed);
    }
    var available := Present(fragments);
    if available < k {
      return Err(InsufficientFragments(available, k));
    }
    var slots := rs.reconstruct(Contents(fragments));
    if slots.None? {
      return Err(DecodeFailed);
    }
    var shards := slots.value[..Min(k, |slots.value|)];
    var result: Shard := [];
    for i := 0 to |shards|
      invariant AllPresent(shards[..i])
      invariant result == JoinedSlots(shards[..i])
    {
      if shards[i].None? {
        assert !AllPresent(shards);
        return Err(DecodeFailed);
      }
      assert shards[..i + 1][..i] == shards[..i];
      result := result + shards[i].value;
    }
    assert shards[..|shards|] == shards;
    r := Ok(result[..Min(originalLen, |result|)]);
  }

  function JoinedSlots(slots: seq<Option<Shard>>): Shard {
    if slots == [] then []
    else
      JoinedSlots(slots[..|slots| - 1])
      + (if slots[|slots| - 1].Some? then slots[|slots| - 1].value else [])
  }

  ghost function Decoded(rs: ReedSolomon, k: nat, m: nat, fragments: seq<Option<Fragment>>, originalLen: nat)
    : Result<Shard, EcError>
  {
    if |fragments| != k + m then Err(DecodeFailed)
    else if Present(fragments) < k then Err(InsufficientFragments(Present(fragments), k))
    else
      match rs.reconstruct(Contents(fragments))
      case None => Err(DecodeFailed)
      case Some(slots) =>
        var first := slots[..Min(k, |slots|)];
        if !AllPresent(first) then Err(DecodeFailed)
        else Ok(JoinedSlots(first)[..Min(originalLen, |JoinedSlots(first)|)])
  }

  // ---------- Errors and labels ----------

  // Encoding fails exactly on empty data or where the library does, and numbers the
  // fragments, the first K being data.
  lemma EncodeOutcome(rs: ReedSolomon, k: nat, m: nat, data: Shard)
    requires k >= 1
    ensures var size := FragmentSize(|data|, k);
            var shards := rs.encode(Pieces(data, size, k) + Blank(m, size));
            var r := Encoded(rs, k, m, data);
            if data == [] || shards.None? then r == Err(EncodeFailed)
            else
              && r.Ok? && |r.value| == |shards.value|
              && forall i | 0 <= i < |r.value| ::
                   r.value[i].index == i && r.value[i].data == shards.value[i] && (r.value[i].isData <==> i < k)
  {
  }

  // Decoding fails exactly if the number of slots is wrong, fewer than K are filled,
  // or the library gives up or leaves a data shard out.
  lemma DecodeErrors(rs: ReedSolomon, k: nat, m: nat, slots: seq<Option<Fragment>>, n: nat)
    ensures var r := Decoded(rs, k, m, slots, n);
            var made := rs.reconstruct(Contents(slots));
            && (|slots| != k + m ==> r == Err(DecodeFailed))
            && (|slots| == k + m && Present(slots) < k ==> r == Err(InsufficientFragments(Present(slots), k)))
            && (|slots| == k + m && Present(slots) >= k ==>
                  if made.None? || exists i :: 0 <= i < k && i < |made.value| && made.value[i].None? then
                    r == Err(DecodeFailed)
                  else r.Ok? && |r.value| <= n)
  {
  }

  // ---------- Round trip ----------

  lemma {:induction false} JoinedWhole(shards: seq<Shard>)
    ensures JoinedSlots(Whole(shards)) == Joined(shards)
    decreases |shards|
  {
    if shards != [] {
      var last := |shards| - 1;
      assert Whole(shards)[..last] == Whole(shards[..last]);
      JoinedWhole(shards[..last]);
    }
  }

  lemma EncodesToCodeword(rs: ReedSolomon, k: nat, m: nat, data: Shard)
    requires Lawful(rs, k, m) && data != []
    ensures var shards := Pieces(data, FragmentSize(|data|, k), k) + Blank(m, FragmentSize(|data|, k));
            && rs.encode(shards).Some? && |rs.encode(shards).value| == k + m
            && rs.encode(shards).value[..k] == Pieces(data, FragmentSize(|data|, k), k)
            && Encoded(rs, k, m, data) == Ok(AsFragments(rs.encode(shards).value, k))
  {
    var size := FragmentSize(|data|, k);
    var shards := Pieces(data, size, k) + Blank(m, size);
    assert Uniform(shards, size);
    assert shards[..k] == Pieces(data, size, k);
  }

  // The fragments kept in their slots are those of the encoding.
  ghost predicate Survive(slots: seq<Option<Fragment>>, fragments: seq<Fragment>) {
    && |slots| == |fragments|
    && forall i | 0 <= i < |slots| && slots[i].Some? :: slots[i].value.data == fragments[i].data
  }

  lemma {:induction false} PresentContents(slots: seq<Option<Fragment>>)
    ensures Present(Contents(slots)) == Present(slots)
    decreases |slots|
  {
    if slots != [] {
      var last := |slots| - 1;
      assert Contents(slots)[..last] == Contents(slots[..last]);
      PresentContents(slots[..last]);
    }
  }

  lemma PiecesCover(data: Shard, k: nat)
    requires k >= 1
    ensures var joined := Joined(Pieces(data, FragmentSize(|data|, k), k));
            |joined| >= |data| && joined[..|data|] == data
  {
    var size := FragmentSize(|data|, k);
    JoinedPieces(data, size, k);
    assert size * k == k * size;
    assert data[..|data|] == data;
  }

  lemma ReconstructedDecodes(rs: ReedSolomon, k: nat, m: nat, slots: seq<Option<Fragment>>, n: nat,
                             codeword: seq<Shard>)
    requires |slots| == |codeword| == k + m && Present(slots) >= k
    requires rs.reconstruct(Contents(slots)) == Some(Whole(codeword))
    ensures Decoded(rs, k, m, slots, n) == Ok(Joined(codeword[..k])[..Min(n, |Joined(codeword[..k])|)])
  {
    assert Whole(codeword)[..k] == Whole(codeword[..k]);
    JoinedWhole(codeword[..k]);
  }

  // Whatever data is encoded, any K of its fragments decode to exactly that
  // data, and fewer than K are reported as too few.
  lemma DecodeAfterEncode(rs: ReedSolomon, k: nat, m: nat, data: Shard, slots: seq<Option<Fragment>>)
    requires Lawful(rs, k, m) && data != []
    requires Encoded(rs, k, m, data).Ok? && Survive(slots, Encoded(rs, k, m, data).value)
    ensures Decoded(rs, k, m, slots, |data|)
         == if Present(slots) >= k then Ok(data) else Err(InsufficientFragments(Present(slots), k))
  {
    EncodesToCodeword(rs, k, m, data);
    var size := FragmentSize(|data|, k);
    var shards := Pieces(data, size, k) + Blank(m, size);
    var codeword := rs.encode(shards).value;
    if Present(slots) >= k {
      PresentContents(slots);
      assert PartOf(Contents(slots), codeword);
      ReconstructedDecodes(rs, k, m, slots, |data|, codeword);
      PiecesCover(data, k);
    }
  }
}
