/**
 Restoration: merging the hub-only fields of a decoded snapshot into the
 object the field mapper produced from the old schema.

 - Subnet purpose: each snapshot subnet, in order, gives its purpose to the
   FIRST baseline subnet with the same name; snapshot subnets with no
   namesake are ignored; nothing but `purpose` changes.
 - Credentials reference: a present snapshot value replaces the baseline's.
 - Resource-manager tags: the snapshot's tags are appended, in order, with
   no deduplication.
 */
module Restore {
  import opened Common
  import opened V1beta1

  /* ---------------------------------------------------------------------- */
  /* Subnet purpose                                                          */
  /* ---------------------------------------------------------------------- */

  /** `k` is the position of the first subnet called `subnets[k].name`. */
  predicate IsFirstNamed(subnets: seq<SubnetSpec>, k: int)
  {
    0 <= k < |subnets| && forall j :: 0 <= j < k ==> subnets[j].name != subnets[k].name
  }

  /** Position of the first subnet called `name`, if there is one. */
  function FirstIndex(subnets: seq<SubnetSpec>, name: string): (r: Option<nat>)
    ensures r.Some? ==> r.value < |subnets| && subnets[r.value].name == name
    ensures r.Some? ==> IsFirstNamed(subnets, r.value)
    ensures r.None? <==> forall k :: 0 <= k < |subnets| ==> subnets[k].name != name
  {
    if |subnets| == 0 then None
    else if subnets[0].name == name then Some(0)
    else
      match FirstIndex(subnets[1..], name)
      case None => None
      case Some(i) => Some(i + 1)
  }

  /** One step of the restore loop: the first subnet called `name` gets `purpose`. */
  function SetPurpose(subnets: seq<SubnetSpec>, name: string, purpose: Option<string>)
    : (r: seq<SubnetSpec>)
    ensures |r| == |subnets|
    ensures SubnetNames(r) == SubnetNames(subnets)
    ensures forall k :: 0 <= k < |subnets| ==>
      r[k] == if IsFirstNamed(subnets, k) && subnets[k].name == name
              then subnets[k].(purpose := purpose)
              else subnets[k]
  {
    match FirstIndex(subnets, name)
    case None => subnets
    case Some(i) => subnets[i := subnets[i].(purpose := purpose)]
  }

  /**
   Restores the purposes of `restored` onto `subnets`, processing `restored`
   from first to last (stated here by peeling off the last element).
   */
  function RestorePurposes(subnets: seq<SubnetSpec>, restored: seq<SubnetSpec>)
    : seq<SubnetSpec>
    decreases |restored|
  {
    if |restored| == 0 then subnets
    else
      var last := restored[|restored| - 1];
      SetPurpose(RestorePurposes(subnets, restored[..|restored| - 1]), last.name, last.purpose)
  }

  /** The last subnet of `restored` called `name`: the one whose purpose wins. */
  function LastNamed(restored: seq<SubnetSpec>, name: string): (r: Option<SubnetSpec>)
    ensures r.Some? ==> r.value in restored && r.value.name == name
    ensures r.Some? ==> exists k :: 0 <= k < |restored| && restored[k] == r.value
                          && forall j :: k < j < |restored| ==> restored[j].name != name
    ensures r.None? <==> forall k :: 0 <= k < |restored| ==> restored[k].name != name
  {
    if |restored| == 0 then None
    else if restored[|restored| - 1].name == name then Some(restored[|restored| - 1])
    else LastNamed(restored[..|restored| - 1], name)
  }

  /**
   Reference definition of subnet restoration, one position at a time: the
   first baseline subnet of a name takes the purpose of the last snapshot
   subnet of that name; every other subnet keeps its own purpose.
   */
  function ExpectedPurpose(subnets: seq<SubnetSpec>, restored: seq<SubnetSpec>, k: int)
    : Option<string>
    requires 0 <= k < |subnets|
  {
    var winner := LastNamed(restored, subnets[k].name);
    if IsFirstNamed(subnets, k) && winner.Some? then winner.value.purpose
    else subnets[k].purpose
  }

  /** The restore loop agrees with the reference definition at every position. */
  lemma {:induction false} RestorePurposesMeetsReference(
    subnets: seq<SubnetSpec>, restored: seq<SubnetSpec>)
    ensures |RestorePurposes(subnets, restored)| == |subnets|
    ensures forall k :: 0 <= k < |subnets| ==>
      RestorePurposes(subnets, restored)[k]
        == subnets[k].(purpose := ExpectedPurpose(subnets, restored, k))
    decreases |restored|
  {
    if |restored| > 0 {
      var init := restored[..|restored| - 1];
      var last := restored[|restored| - 1];
      var mid := RestorePurposes(subnets, init);
      RestorePurposesMeetsReference(subnets, init);
      assert SubnetNames(mid) == SubnetNames(subnets) by {
        forall k | 0 <= k < |subnets| ensures mid[k].name == subnets[k].name {
        }
      }
      forall k | 0 <= k < |subnets|
        ensures RestorePurposes(subnets, restored)[k]
          == subnets[k].(purpose := ExpectedPurpose(subnets, restored, k))
      {
        assert mid[k].name == subnets[k].name;
        assert IsFirstNamed(mid, k) <==> IsFirstNamed(subnets, k) by {
          forall j | 0 <= j < k ensures mid[j].name == subnets[j].name {
          }
        }
      }
    }
  }

  /** Restoration keeps the number, order and names of the baseline subnets. */
  lemma RestorePurposesKeepsNames(subnets: seq<SubnetSpec>, restored: seq<SubnetSpec>)
    ensures SubnetNames(RestorePurposes(subnets, restored)) == SubnetNames(subnets)
    ensures WithoutPurposes(RestorePurposes(subnets, restored)) == WithoutPurposes(subnets)
  {
    RestorePurposesMeetsReference(subnets, restored);
  }

  /** Removing a snapshot subnet of another name does not change which one wins. */
  lemma {:induction false} LastNamedSkips(
    pre: seq<SubnetSpec>, extra: SubnetSpec, post: seq<SubnetSpec>, name: string)
    requires extra.name != name
    ensures LastNamed(pre + [extra] + post, name) == LastNamed(pre + post, name)
    decreases |post|
  {
    var with := pre + [extra] + post;
    var without := pre + post;
    if |post| == 0 {
      assert with == pre + [extra];
      assert with[|with| - 1] == extra;
      assert with[..|with| - 1] == pre;
      assert without == pre;
    } else {
      var init := post[..|post| - 1];
      var last := post[|post| - 1];
      assert with == (pre + [extra] + init) + [last];
      assert without == (pre + init) + [last];
      assert with[..|with| - 1] == pre + [extra] + init;
      assert without[..|without| - 1] == pre + init;
      if last.name != name {
        LastNamedSkips(pre, extra, init, name);
      }
    }
  }

  /**
   A snapshot subnet, anywhere in the snapshot, whose name no baseline subnet
   carries changes nothing.
   */
  lemma UnmatchedSubnetIgnored(
    subnets: seq<SubnetSpec>, pre: seq<SubnetSpec>, extra: SubnetSpec, post: seq<SubnetSpec>)
    requires forall k :: 0 <= k < |subnets| ==> subnets[k].name != extra.name
    ensures RestorePurposes(subnets, pre + [extra] + post) == RestorePurposes(subnets, pre + post)
  {
    var a := RestorePurposes(subnets, pre + [extra] + post);
    var b := RestorePurposes(subnets, pre + post);
    RestorePurposesMeetsReference(subnets, pre + [extra] + post);
    RestorePurposesMeetsReference(subnets, pre + post);
    forall k | 0 <= k < |subnets| ensures a[k] == b[k] {
      LastNamedSkips(pre, extra, post, subnets[k].name);
    }
  }

  /** With unique names, the last snapshot subnet called `s[k].name` is `s[k]`. */
  lemma {:induction false} LastNamedUnique(s: seq<SubnetSpec>, k: int)
    requires UniqueNames(s)
    requires 0 <= k < |s|
    ensures LastNamed(s, s[k].name) == Some(s[k])
    decreases |s|
  {
    if k < |s| - 1 {
      var init := s[..|s| - 1];
      assert s[|s| - 1].name != s[k].name;
      assert init[k] == s[k];
      assert UniqueNames(init) by {
        forall i, j | 0 <= i < j < |init| ensures init[i].name != init[j].name {
          assert init[i] == s[i] && init[j] == s[j];
        }
      }
      LastNamedUnique(init, k);
    }
  }

  /**
   The Go restore loop, as written: for each snapshot subnet, scan the
   baseline for the first subnet with the same name, copy the purpose onto
   it and stop scanning.
   */
  method RestoreSubnetPurposes(baseline: seq<SubnetSpec>, restored: seq<SubnetSpec>)
    returns (dst: seq<SubnetSpec>)
    ensures dst == RestorePurposes(baseline, restored)
  {
    dst := baseline;
    for i := 0 to |restored|
      invariant dst == RestorePurposes(baseline, restored[..i])
    {
      var restoredSubnet := restored[i];
      ghost var before := dst;
      for j := 0 to |dst|
        invariant |dst| == |before|
        invariant forall k :: 0 <= k < j ==> before[k].name != restoredSubnet.name
        invariant dst == before
      {
        if dst[j].name != restoredSubnet.name {
          continue;
        }
        dst := dst[j := dst[j].(purpose := restoredSubnet.purpose)];
        break;
      }
      assert restored[..i + 1][..i] == restored[..i];
      assert dst == SetPurpose(before, restoredSubnet.name, restoredSubnet.purpose);
    }
    assert restored[..|restored|] == restored;
  }

  /* ---------------------------------------------------------------------- */
  /* Tags                                                                    */
  /* ---------------------------------------------------------------------- */

  /** The Go tag loop, as written: append each snapshot tag to the baseline's. */
  method AppendRestoredTags(baseline: seq<ResourceManagerTag>, restored: seq<ResourceManagerTag>)
    returns (dst: seq<ResourceManagerTag>)
    ensures |dst| == |baseline| + |restored|
    ensures dst[..|baseline|] == baseline && dst[|baseline|..] == restored
  {
    dst := baseline;
    for i := 0 to |restored|
      invariant dst == baseline + restored[..i]
    {
      dst := dst + [restored[i]];
      assert restored[..i + 1] == restored[..i] + [restored[i]];
    }
    assert restored[..|restored|] == restored;
  }

  /* ---------------------------------------------------------------------- */
  /* Whole-object restoration                                                */
  /* ---------------------------------------------------------------------- */

  /** Merges the hub-only fields of `restored` into `baseline`. */
  function RestoreHubOnly(baseline: GCPCluster, restored: GCPCluster): (r: GCPCluster)
    ensures r.metadata == baseline.metadata
    ensures Shared(r.spec) == Shared(baseline.spec)
    ensures var bs := baseline.spec.network.subnets;
      && |r.spec.network.subnets| == |bs|
      && forall k :: 0 <= k < |bs| ==>
           r.spec.network.subnets[k]
             == bs[k].(purpose := ExpectedPurpose(bs, restored.spec.network.subnets, k))
    ensures restored.spec.credentialsRef.Some? ==>
      r.spec.credentialsRef == restored.spec.credentialsRef
    ensures restored.spec.credentialsRef.None? ==>
      r.spec.credentialsRef == baseline.spec.credentialsRef
    ensures |r.spec.resourceManagerTags|
      == |baseline.spec.resourceManagerTags| + |restored.spec.resourceManagerTags|
    ensures r.spec.resourceManagerTags[..|baseline.spec.resourceManagerTags|]
      == baseline.spec.resourceManagerTags
    ensures r.spec.resourceManagerTags[|baseline.spec.resourceManagerTags|..]
      == restored.spec.resourceManagerTags
  {
    var bs := baseline.spec.network.subnets;
    var subnets := RestorePurposes(bs, restored.spec.network.subnets);
    var credentials :=
      if restored.spec.credentialsRef.Some? then restored.spec.credentialsRef
      else baseline.spec.credentialsRef;
    var tags := baseline.spec.resourceManagerTags + restored.spec.resourceManagerTags;
    RestorePurposesMeetsReference(bs, restored.spec.network.subnets);
    RestorePurposesKeepsNames(bs, restored.spec.network.subnets);
    baseline.(spec := baseline.spec.(
      network := baseline.spec.network.(subnets := subnets),
      credentialsRef := credentials,
      resourceManagerTags := tags))
  }

  /**
   Restoring the same snapshot twice without a downgrade in between leaves
   purposes and credentials as after one restoration but appends the
   snapshot's tags a second time.
   */
  lemma RestoreTwice(baseline: GCPCluster, restored: GCPCluster)
    ensures var once := RestoreHubOnly(baseline, restored);
      var twice := RestoreHubOnly(once, restored);
      && twice.spec.network == once.spec.network
      && twice.spec.credentialsRef == once.spec.credentialsRef
      && twice.spec.resourceManagerTags
           == baseline.spec.resourceManagerTags
              + restored.spec.resourceManagerTags
              + restored.spec.resourceManagerTags
  {
    var once := RestoreHubOnly(baseline, restored);
    var twice := RestoreHubOnly(once, restored);
    var bs := baseline.spec.network.subnets;
    var os := once.spec.network.subnets;
    var rs := restored.spec.network.subnets;
    assert SubnetNames(os) == SubnetNames(bs) by {
      assert WithoutPurposes(os) == WithoutPurposes(bs);
      forall k | 0 <= k < |bs| ensures os[k].name == bs[k].name {
        assert WithoutPurposes(os)[k] == WithoutPurposes(bs)[k];
      }
    }
    forall k | 0 <= k < |os|
      ensures twice.spec.network.subnets[k] == os[k]
    {
      assert os[k].name == bs[k].name;
      assert IsFirstNamed(os, k) <==> IsFirstNamed(bs, k) by {
        forall j | 0 <= j < k ensures os[j].name == bs[j].name {
          assert SubnetNames(os)[j] == SubnetNames(bs)[j];
        }
      }
    }
    assert twice.spec.network.subnets == os;
    var bt := baseline.spec.resourceManagerTags;
    var rt := restored.spec.resourceManagerTags;
    assert once.spec.resourceManagerTags == bt + rt;
    assert twice.spec.resourceManagerTags == (bt + rt) + rt;
  }
}
