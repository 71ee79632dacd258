/**
 The conversion orchestrator for GCPCluster between v1alpha4 (spoke) and
 v1beta1 (hub). Both directions run the generated field mapper first; the
 downgrade then stores a snapshot of the hub object on the old object, and
 the upgrade reads that snapshot back and restores the hub-only fields.
 */
module Conversion {
  import opened Common
  import V1alpha4
  import opened V1beta1
  import opened Snapshot
  import opened Restore

  /**
   The generated field-by-field mappers, which are not part of this model:
   each copies the fields both schemas share and drops what the destination
   cannot hold.
   */
  datatype Mapper = Mapper(
    clusterToHub: V1alpha4.GCPCluster -> Result<GCPCluster>,
    clusterFromHub: GCPCluster -> Result<V1alpha4.GCPCluster>,
    listToHub: V1alpha4.GCPClusterList -> Result<GCPClusterList>,
    listFromHub: GCPClusterList -> Result<V1alpha4.GCPClusterList>
  )

  /**
   Old to hub. A mapper error is returned before the snapshot is looked at;
   no snapshot means the mapped object as is; an undecodable snapshot means
   its decode error and no object; a decoded snapshot is merged into the
   mapped object.
   */
  function ConvertTo(mapper: Mapper, codec: Codec, src: V1alpha4.GCPCluster)
    : (r: Result<GCPCluster>)
    ensures mapper.clusterToHub(src).Failure? ==>
      r == Failure(mapper.clusterToHub(src).error)
    ensures mapper.clusterToHub(src).Success? && DataAnnotation !in src.metadata.annotations ==>
      r == mapper.clusterToHub(src)
    ensures mapper.clusterToHub(src).Success? && DataAnnotation in src.metadata.annotations
            && codec.decode(src.metadata.annotations[DataAnnotation]).Failure? ==>
      r == Failure(codec.decode(src.metadata.annotations[DataAnnotation]).error)
    ensures r.Success? ==>
      && mapper.clusterToHub(src).Success?
      && r.value.metadata == mapper.clusterToHub(src).value.metadata
      && Shared(r.value.spec) == Shared(mapper.clusterToHub(src).value.spec)
    ensures mapper.clusterToHub(src).Success? && DataAnnotation in src.metadata.annotations
            && codec.decode(src.metadata.annotations[DataAnnotation]).Success? ==>
      r == Success(RestoreHubOnly(mapper.clusterToHub(src).value,
                                  codec.decode(src.metadata.annotations[DataAnnotation]).value))
  {
    match mapper.clusterToHub(src)
    case Failure(e) => Failure(e)
    case Success(baseline) =>
      match UnmarshalData(codec, src)
      case Absent => Success(baseline)
      case Invalid(e) => Failure(e)
      case Restored(restored) => Success(RestoreHubOnly(baseline, restored))
  }

  /**
   Hub to old. A mapper error or an encode error is returned with no object;
   otherwise the mapped object carries a snapshot of `src`.
   */
  function ConvertFrom(mapper: Mapper, codec: Codec, src: GCPCluster)
    : (r: Result<V1alpha4.GCPCluster>)
    ensures mapper.clusterFromHub(src).Failure? ==>
      r == Failure(mapper.clusterFromHub(src).error)
    ensures mapper.clusterFromHub(src).Success? && codec.encode(src).Failure? ==>
      r == Failure(codec.encode(src).error)
    ensures r.Success? <==> mapper.clusterFromHub(src).Success? && codec.encode(src).Success?
    ensures r.Success? ==>
      var mapped := mapper.clusterFromHub(src).value;
      && r.value.spec == mapped.spec
      && r.value.metadata.name == mapped.metadata.name
      && r.value.metadata.namespace == mapped.metadata.namespace
      && r.value.metadata.annotations.Keys == mapped.metadata.annotations.Keys + {DataAnnotation}
      && codec.encode(src) == Success(r.value.metadata.annotations[DataAnnotation])
      && (forall k :: k in mapped.metadata.annotations && k != DataAnnotation ==>
            r.value.metadata.annotations[k] == mapped.metadata.annotations[k])
  {
    match mapper.clusterFromHub(src)
    case Failure(e) => Failure(e)
    case Success(mapped) => MarshalData(codec, src, mapped)
  }

  /** Old list to hub list: the mapper alone, with no snapshot handling. */
  function ConvertListTo(mapper: Mapper, src: V1alpha4.GCPClusterList)
    : (r: Result<GCPClusterList>)
    ensures r == mapper.listToHub(src)
  {
    mapper.listToHub(src)
  }

  /** Hub list to old list: the mapper alone, with no snapshot written. */
  function ConvertListFrom(mapper: Mapper, src: GCPClusterList)
    : (r: Result<V1alpha4.GCPClusterList>)
    ensures r == mapper.listFromHub(src)
  {
    mapper.listFromHub(src)
  }

  /* ---------------------------------------------------------------------- */
  /* Round trips                                                             */
  /* ---------------------------------------------------------------------- */

  /** Every successful downgrade leaves a snapshot that reads back as `src`'s spec. */
  lemma DowngradeAlwaysSnapshots(mapper: Mapper, codec: Codec, src: GCPCluster)
    requires RoundTrips(codec)
    requires ConvertFrom(mapper, codec, src).Success?
    ensures UnmarshalData(codec, ConvertFrom(mapper, codec, src).value).Restored?
    ensures UnmarshalData(codec, ConvertFrom(mapper, codec, src).value).hub.spec == src.spec
  {
    MarshalThenUnmarshal(codec, src, mapper.clusterFromHub(src).value);
  }

  /**
   hub -> old -> hub gives back the hub-only fields exactly, when the mapper's
   output for the old object has no credentials, no tags and the same subnet
   names, in the same order, as `h`, and those names are unique.
   */
  lemma RoundTripRestoresHubOnlyFields(
    mapper: Mapper, codec: Codec, h: GCPCluster, spoke: V1alpha4.GCPCluster, baseline: GCPCluster)
    requires RoundTrips(codec)
    requires ConvertFrom(mapper, codec, h) == Success(spoke)
    requires mapper.clusterToHub(spoke) == Success(baseline)
    requires baseline.spec.credentialsRef.None? && baseline.spec.resourceManagerTags == []
    requires SubnetNames(baseline.spec.network.subnets) == SubnetNames(h.spec.network.subnets)
    requires UniqueNames(h.spec.network.subnets)
    ensures ConvertTo(mapper, codec, spoke).Success?
    ensures var r := ConvertTo(mapper, codec, spoke).value;
      && r.spec.credentialsRef == h.spec.credentialsRef
      && r.spec.resourceManagerTags == h.spec.resourceManagerTags
      && |r.spec.network.subnets| == |h.spec.network.subnets|
      && (forall k :: 0 <= k < |h.spec.network.subnets| ==>
            r.spec.network.subnets[k].purpose == h.spec.network.subnets[k].purpose)
      && Shared(r.spec) == Shared(baseline.spec)
  {
    DowngradeAlwaysSnapshots(mapper, codec, h);
    var restored := UnmarshalData(codec, spoke).hub;
    var r := RestoreHubOnly(baseline, restored);
    var bs := baseline.spec.network.subnets;
    var hs := h.spec.network.subnets;
    assert restored.spec == h.spec;
    forall k | 0 <= k < |bs|
      ensures r.spec.network.subnets[k].purpose == hs[k].purpose
    {
      assert SubnetNames(bs)[k] == SubnetNames(hs)[k];
      LastNamedUnique(hs, k);
      assert IsFirstNamed(bs, k) by {
        forall j | 0 <= j < k ensures bs[j].name != bs[k].name {
          assert SubnetNames(bs)[j] == SubnetNames(hs)[j];
        }
      }
    }
    assert r.spec.resourceManagerTags == [] + h.spec.resourceManagerTags;
  }

  /**
   When, in addition, the mapper carries every shared field across unchanged,
   hub -> old -> hub gives back the whole spec of `h`.
   */
  lemma RoundTripReproducesSpec(
    mapper: Mapper, codec: Codec, h: GCPCluster, spoke: V1alpha4.GCPCluster, baseline: GCPCluster)
    requires RoundTrips(codec)
    requires ConvertFrom(mapper, codec, h) == Success(spoke)
    requires mapper.clusterToHub(spoke) == Success(baseline)
    requires baseline.spec == Shared(h.spec)
    requires UniqueNames(h.spec.network.subnets)
    ensures ConvertTo(mapper, codec, spoke).Success?
    ensures ConvertTo(mapper, codec, spoke).value.spec == h.spec
  {
    RoundTripRestoresHubOnlyFields(mapper, codec, h, spoke, baseline);
    var r := ConvertTo(mapper, codec, spoke).value;
    var rs := r.spec.network.subnets;
    var hs := h.spec.network.subnets;
    assert Shared(r.spec) == Shared(h.spec) by {
      assert Shared(Shared(h.spec)) == Shared(h.spec);
    }
    forall k | 0 <= k < |hs| ensures rs[k] == hs[k] {
      assert WithoutPurposes(rs)[k] == WithoutPurposes(hs)[k];
    }
    assert rs == hs;
  }

  /* ---------------------------------------------------------------------- */
  /* Worked scenarios                                                        */
  /* ---------------------------------------------------------------------- */

  function Subnet(name: string, purpose: Option<string>): SubnetSpec
  {
    SubnetSpec(name, "", None, map[], None, None, "", purpose)
  }

  /**
   Baseline subnets a, b and snapshot subnets b (PRIVATE), c (PUBLIC): b gets
   PRIVATE, a is untouched and c is dropped.
   */
  lemma SubnetJoinExample()
    ensures RestorePurposes([Subnet("a", None), Subnet("b", None)],
                            [Subnet("b", Some("PRIVATE")), Subnet("c", Some("PUBLIC"))])
            == [Subnet("a", None), Subnet("b", Some("PRIVATE"))]
  {
    var base := [Subnet("a", None), Subnet("b", None)];
    var restored := [Subnet("b", Some("PRIVATE")), Subnet("c", Some("PUBLIC"))];
    assert FirstIndex(base, "b") == Some(1);
    assert FirstIndex(base[..1][1..], "b") == None;
    UnmatchedSubnetIgnored(base, [Subnet("b", Some("PRIVATE"))], Subnet("c", Some("PUBLIC")), []);
    assert restored == [Subnet("b", Some("PRIVATE"))] + [Subnet("c", Some("PUBLIC"))] + [];
    assert [Subnet("b", Some("PRIVATE"))] + [] == [Subnet("b", Some("PRIVATE"))];
  }

  /**
   Two snapshot subnets with one name: the first baseline subnet of that
   name ends with the purpose of the later one and the second baseline
   subnet of that name is left alone, so a hub object with duplicate subnet
   names does not survive a round trip.
   */
  lemma DuplicateNamesLastWins()
    ensures RestorePurposes([Subnet("a", None), Subnet("a", None)],
                            [Subnet("a", Some("P1")), Subnet("a", Some("P2"))])
            == [Subnet("a", Some("P2")), Subnet("a", None)]
  {
    var base := [Subnet("a", None), Subnet("a", None)];
    var restored := [Subnet("a", Some("P1")), Subnet("a", Some("P2"))];
    RestorePurposesMeetsReference(base, restored);
    assert IsFirstNamed(base, 0);
    assert !IsFirstNamed(base, 1);
    assert LastNamed(restored, "a") == Some(Subnet("a", Some("P2")));
  }
}
