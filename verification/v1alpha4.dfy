/**
 The deprecated schema (v1alpha4) of a GCP cluster. It has no subnet
 purpose, no credentials reference and no resource-manager tags; the only
 way it keeps them is the snapshot annotation in its metadata.
 */
module V1alpha4 {
  import opened Common

  datatype SubnetSpec = SubnetSpec(
    name: string,
    cidrBlock: string,
    description: Option<string>,
    secondaryCidrBlocks: map<string, string>,
    privateGoogleAccess: Option<bool>,
    enableFlowLogs: Option<bool>,
    region: string
  )

  datatype NetworkSpec = NetworkSpec(
    name: Option<string>,
    subnets: seq<SubnetSpec>
  )

  datatype GCPClusterSpec = GCPClusterSpec(
    project: string,
    region: string,
    network: NetworkSpec,
    additionalLabels: map<string, string>
  )

  datatype GCPCluster = GCPCluster(metadata: ObjectMeta, spec: GCPClusterSpec)

  datatype GCPClusterList = GCPClusterList(items: seq<GCPCluster>)
}
