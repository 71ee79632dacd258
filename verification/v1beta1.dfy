/**
 The hub schema (v1beta1) of a GCP cluster, reduced to the fields the
 conversion layer reads plus a representative set of fields both schemas
 share. Subnet `purpose`, the cluster's `credentialsRef` and its
 `resourceManagerTags` exist only here.
 */
module V1beta1 {
  import opened Common

  datatype SubnetSpec = SubnetSpec(
    name: string,
    cidrBlock: string,
    description: Option<string>,
    secondaryCidrBlocks: map<string, string>,
    privateGoogleAccess: Option<bool>,
    enableFlowLogs: Option<bool>,
    region: string,
    purpose: Option<string>          // hub only
  )

  datatype NetworkSpec = NetworkSpec(
    name: Option<string>,
    subnets: seq<SubnetSpec>
  )

  /** Reference to the secret holding the cluster's cloud credentials. */
  datatype ObjectReference = ObjectReference(namespace: string, name: string)

  datatype ResourceManagerTag = ResourceManagerTag(parentId: string, key: string, value: string)

  datatype GCPClusterSpec = GCPClusterSpec(
    project: string,
    region: string,
    network: NetworkSpec,
    additionalLabels: map<string, string>,
    credentialsRef: Option<ObjectReference>,         // hub only
    resourceManagerTags: seq<ResourceManagerTag>     // hub only
  )

  datatype GCPCluster = GCPCluster(metadata: ObjectMeta, spec: GCPClusterSpec)

  datatype GCPClusterList = GCPClusterList(items: seq<GCPCluster>)

  /** The names of `subnets`, in order. */
  function SubnetNames(subnets: seq<SubnetSpec>): (names: seq<string>)
    ensures |names| == |subnets|
    ensures forall k :: 0 <= k < |subnets| ==> names[k] == subnets[k].name
  {
    seq(|subnets|, k requires 0 <= k < |subnets| => subnets[k].name)
  }

  /** No two subnets share a name: the join key between the schemas. */
  predicate UniqueNames(subnets: seq<SubnetSpec>)
  {
    forall i, j :: 0 <= i < j < |subnets| ==> subnets[i].name != subnets[j].name
  }

  /** `subnets` with every purpose cleared. */
  function WithoutPurposes(subnets: seq<SubnetSpec>): (r: seq<SubnetSpec>)
    ensures |r| == |subnets|
    ensures forall k :: 0 <= k < |subnets| ==> r[k] == subnets[k].(purpose := None)
  {
    seq(|subnets|, k requires 0 <= k < |subnets| => subnets[k].(purpose := None))
  }

  /**
   The part of a hub spec that the old schema can also hold: the spec with
   every hub-only field reset to its zero value.
   */
  function Shared(spec: GCPClusterSpec): (r: GCPClusterSpec)
    ensures r.credentialsRef.None? && r.resourceManagerTags == []
    ensures SubnetNames(r.network.subnets) == SubnetNames(spec.network.subnets)
  {
    spec.(network := spec.network.(subnets := WithoutPurposes(spec.network.subnets)),
          credentialsRef := None,
          resourceManagerTags := [])
  }
}
