/**
 The snapshot side channel: a serialized copy of the hub object kept in one
 annotation of the old object. The serializer itself is an external
 collaborator, so it enters the model as a pair of functions (`Codec`) and
 what the orchestrator needs of it is the predicate `RoundTrips`.
 */
module Snapshot {
  import opened Common
  import V1alpha4
  import V1beta1

  /** The annotation key under which the hub snapshot is stored. */
  const DataAnnotation: string := "cluster.x-k8s.io/conversion-data"

  /** The serializer: encoding a hub object to a string and back. */
  datatype Codec = Codec(
    encode: V1beta1.GCPCluster -> Result<string>,
    decode: string -> Result<V1beta1.GCPCluster>
  )

  /**
   A codec round-trips when whatever it manages to encode decodes again to an
   object with the same spec. Only the spec is required to survive: it is all
   that restoration reads.
   */
  ghost predicate RoundTrips(codec: Codec)
  {
    forall h :: codec.encode(h).Success? ==>
      && codec.decode(codec.encode(h).value).Success?
      && codec.decode(codec.encode(h).value).value.spec == h.spec
  }

  /** The three outcomes of reading a snapshot back. */
  datatype Unmarshalled =
    | Absent                            // no annotation: nothing to restore
    | Invalid(error: ConversionError)   // annotation present but undecodable
    | Restored(hub: V1beta1.GCPCluster) // annotation decoded

  /** Reads the hub snapshot stored on an old object, if any. */
  function UnmarshalData(codec: Codec, from: V1alpha4.GCPCluster): (u: Unmarshalled)
    ensures u.Absent? <==> DataAnnotation !in from.metadata.annotations
    ensures u.Invalid? <==>
      DataAnnotation in from.metadata.annotations
      && codec.decode(from.metadata.annotations[DataAnnotation]).Failure?
    ensures u.Invalid? ==>
      u.error == codec.decode(from.metadata.annotations[DataAnnotation]).error
    ensures u.Restored? ==>
      DataAnnotation in from.metadata.annotations
      && codec.decode(from.metadata.annotations[DataAnnotation]) == Success(u.hub)
  {
    if DataAnnotation !in from.metadata.annotations then Absent
    else
      match codec.decode(from.metadata.annotations[DataAnnotation])
      case Failure(e) => Invalid(e)
      case Success(h) => Restored(h)
  }

  /**
   Stores a snapshot of `src` on `dst`, overwriting any earlier snapshot and
   keeping every other annotation; fails, returning no object, when `src`
   cannot be encoded.
   */
  function MarshalData(codec: Codec, src: V1beta1.GCPCluster, dst: V1alpha4.GCPCluster)
    : (r: Result<V1alpha4.GCPCluster>)
    ensures codec.encode(src).Failure? <==> r.Failure?
    ensures r.Failure? ==> r.error == codec.encode(src).error
    ensures r.Success? ==>
      && r.value.spec == dst.spec
      && r.value.metadata.name == dst.metadata.name
      && r.value.metadata.namespace == dst.metadata.namespace
      && r.value.metadata.annotations.Keys == dst.metadata.annotations.Keys + {DataAnnotation}
      && codec.encode(src) == Success(r.value.metadata.annotations[DataAnnotation])
      && (forall k :: k in dst.metadata.annotations && k != DataAnnotation ==>
            r.value.metadata.annotations[k] == dst.metadata.annotations[k])
  {
    match codec.encode(src)
    case Failure(e) => Failure(e)
    case Success(data) =>
      var annotations := dst.metadata.annotations[DataAnnotation := data];
      Success(dst.(metadata := dst.metadata.(annotations := annotations)))
  }

  /**
   With a round-tripping codec, a stored snapshot reads back as an object
   with the spec that was stored.
   */
  lemma MarshalThenUnmarshal(codec: Codec, src: V1beta1.GCPCluster, dst: V1alpha4.GCPCluster)
    requires RoundTrips(codec)
    requires MarshalData(codec, src, dst).Success?
    ensures UnmarshalData(codec, MarshalData(codec, src, dst).value).Restored?
    ensures UnmarshalData(codec, MarshalData(codec, src, dst).value).hub.spec == src.spec
  {
    var o := MarshalData(codec, src, dst).value;
    assert codec.encode(src).Success?;
    assert o.metadata.annotations[DataAnnotation] == codec.encode(src).value;
  }
}
