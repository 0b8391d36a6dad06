/** How a cluster's slaves are spread over the zones it is launched in (scripts/spark_ec2.py). */
module Partition {

  /** `get_partition`. For a positive divisor Dafny's division is the floor division of Python. */
  function GetPartition(total: int, numPartitions: int, current: int): (count: int)
    requires numPartitions > 0
    ensures total / numPartitions <= count <= total / numPartitions + 1
  {
    total / numPartitions + if total % numPartitions - current > 0 then 1 else 0
  }

  function SumUpTo(total: int, zones: int, i: nat): int
    requires zones > 0
  {
    if i == 0 then 0 else SumUpTo(total, zones, i - 1) + GetPartition(total, zones, i - 1)
  }

  lemma {:induction false} SumClosed(total: int, zones: int, i: nat)
    requires zones > 0
    ensures SumUpTo(total, zones, i) == i * (total / zones) + if i <= total % zones then i else total % zones
  {
    if i > 0 {
      SumClosed(total, zones, i - 1);
      assert i * (total / zones) == (i - 1) * (total / zones) + total / zones;
    }
  }

  /** Over all zones nothing is left over. */
  lemma SumAll(total: int, zones: int)
    requires zones > 0
    ensures SumUpTo(total, zones, zones) == total
  {
    SumClosed(total, zones, zones);
    assert zones * (total / zones) + total % zones == total;
  }

  lemma EvenCounts(total: int, counts: seq<int>)
    requires |counts| > 0 && forall i :: 0 <= i < |counts| ==> counts[i] == GetPartition(total, |counts|, i)
    ensures forall i, j :: 0 <= i < |counts| && 0 <= j < |counts| ==> -1 <= counts[i] - counts[j] <= 1
    ensures total >= 0 ==> forall i :: 0 <= i < |counts| ==> counts[i] >= 0
  {
    var share := total / |counts|;
    assert total >= 0 ==> share >= 0;
    assert forall i :: 0 <= i < |counts| ==> share <= counts[i] <= share + 1;
  }

  /**
   The zone loop of `launch_cluster`, spot or not: the counts over all zones make
   up the total exactly, and no two zones differ by more than one.
   */
  method LaunchCounts(total: int, zones: seq<string>) returns (counts: seq<int>, launched: int)
    requires |zones| > 0
    ensures |counts| == |zones| && launched == total
    ensures launched == SumUpTo(total, |zones|, |zones|)
    ensures forall i :: 0 <= i < |counts| ==> counts[i] == GetPartition(total, |zones|, i)
    ensures forall i, j :: 0 <= i < |counts| && 0 <= j < |counts| ==> -1 <= counts[i] - counts[j] <= 1
    ensures total >= 0 ==> forall i :: 0 <= i < |counts| ==> counts[i] >= 0
  {
    var i := 0;
    counts, launched := [], 0;
    for z := 0 to |zones|
      invariant i == z == |counts| && launched == SumUpTo(total, |zones|, i)
      invariant forall k :: 0 <= k < |counts| ==> counts[k] == GetPartition(total, |zones|, k)
    {
      var numSlavesThisZone := GetPartition(total, |zones|, i);
      counts := counts + [numSlavesThisZone];
      launched := launched + numSlavesThisZone;
      i := i + 1;
    }
    SumAll(total, |zones|);
    EvenCounts(total, counts);
  }
}
