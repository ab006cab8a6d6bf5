/** Identifiers and result types shared by every component. */
module Base {

  datatype Option<+T> = None | Some(value: T)

  datatype Result<+T, +E> = Ok(value: T) | Err(error: E)

  // The system's identifiers are UUIDs. Two UUIDs print alike only when they
  // are equal, so maps keyed by a printed id are keyed by the id itself here.
  datatype NodeId = NodeId(uuid: nat)
  datatype VolumeId = VolumeId(uuid: nat)
  datatype ExtentId = ExtentId(uuid: nat)
  datatype OperationId = OperationId(uuid: nat)
  datatype SessionId = SessionId(uuid: nat)
  datatype DiskId = DiskId(uuid: nat)

  const U64_MAX: nat := 0xFFFF_FFFF_FFFF_FFFF

  function Min(a: nat, b: nat): nat {
    if a <= b then a else b
  }

  function Max(a: nat, b: nat): nat {
    if a <= b then b else a
  }

  // No element of xs occurs twice.
  ghost predicate Distinct<T(!new)>(xs: seq<T>) {
    forall i, j | 0 <= i < j < |xs| :: xs[i] != xs[j]
  }

  lemma DistinctCounts<T(!new)>(xs: seq<T>)
    ensures Distinct(xs) <==> forall x :: multiset(xs)[x] <= 1
    decreases |xs|
  {
    if xs != [] {
      var rest := xs[1..];
      assert xs == [xs[0]] + rest;
      DistinctCounts(rest);
      if Distinct(xs) {
        assert Distinct(rest) by {
          forall i, j | 0 <= i < j < |rest| ensures rest[i] != rest[j] {
            assert xs[i + 1] != xs[j + 1];
          }
        }
        assert xs[0] !in rest;
      } else {
        var i, j :| 0 <= i < j < |xs| && xs[i] == xs[j];
        if i == 0 {
          assert xs[j] in rest;
          assert multiset(xs)[xs[0]] >= 2;
        } else {
          assert rest[i - 1] == rest[j - 1];
          var x :| multiset(rest)[x] > 1;
          assert multiset(xs)[x] > 1;
        }
      }
    }
  }
}
