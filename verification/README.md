# GCPCluster version conversion (v1alpha4 ⇄ v1beta1)

A Dafny model of the hand-written conversion of the `GCPCluster` resource of
the GCP infrastructure provider for Cluster API between the deprecated
`v1alpha4` schema and the `v1beta1` hub schema.

The old schema cannot hold three hub-only fields: a subnet's `Purpose`, the
cluster's `CredentialsRef` and its `ResourceManagerTags`. Down-conversion
(`ConvertFrom`, hub → old) runs the generated field mapper and then stores a
serialized snapshot of the whole hub object in the old object's
`cluster.x-k8s.io/conversion-data` annotation. Up-conversion (`ConvertTo`,
old → hub) runs the mapper and reads the snapshot back. If a snapshot is
found, the hub-only fields are merged into the mapped object:

- each snapshot subnet gives its purpose to the first mapped subnet with the same name;
- a present credentials reference overwrites the mapped one;
- the snapshot's tags are appended.

The list conversions only call the mapper.

Files (one module each):

- `common.dfy` — `Option`, `Result`, the error kinds, and object metadata reduced to its annotation map.
- `v1beta1.dfy`, `v1alpha4.dfy` — the two schemas. `V1beta1.Shared` is the part of a hub spec that the old schema can also hold.
- `snapshot.dfy` — the snapshot side channel. The serializer is a `Codec` (a pair of functions). `RoundTrips` is the property the orchestrator relies on. `UnmarshalData` and `MarshalData` do the annotation handling around the codec.
- `restore.dfy` — the restoration rules. The Go loops appear as methods, proved equal to functional definitions. Those definitions are proved against an independent per-position reference (`ExpectedPurpose`).
- `conversion.dfy` — the orchestrator, the round-trip theorems and worked scenarios.

The generated mapper and the serializer are not part of this model. They
enter as function-valued parameters (`Conversion.Mapper`, `Snapshot.Codec`).
Nothing is assumed about them except where a lemma says so in its
`requires`.

## Model

| member | source | states |
|---|---|---|
| Snapshot.UnmarshalData | api/v1alpha4/gcpcluster_conversion.go:36-39 | Three outcomes. The result is absent exactly when the annotation is missing. It is an error exactly when the annotation is present and fails to decode, and then the error is the decoder's. Otherwise it is the decoded hub object. |
| Snapshot.MarshalData | api/v1alpha4/gcpcluster_conversion.go:70-73 | Fails exactly when encoding fails, with the encoder's error. On success the annotation holds the encoding of the source. Every other annotation, the name, the namespace and the spec are unchanged, and exactly one key is added or overwritten. |
| Snapshot.MarshalThenUnmarshal | api/v1alpha4/gcpcluster_conversion.go:70-73 | With a round-tripping codec, a stored snapshot reads back as an object with the stored spec. |
| Restore.FirstIndex | api/v1alpha4/gcpcluster_conversion.go:42-45 | The scan finds the first subnet with the name. It finds none exactly when no subnet has the name. |
| Restore.SetPurpose | api/v1alpha4/gcpcluster_conversion.go:42-49 | One restored subnet sets the purpose of the first same-name subnet only. Length and names are kept, and every other subnet is unchanged. |
| Restore.RestorePurposesMeetsReference | api/v1alpha4/gcpcluster_conversion.go:41-50 | After the whole loop, the length is kept and only `purpose` can change. At position k the purpose is the purpose of the LAST snapshot subnet named like k, if k is the first baseline subnet of that name and such a snapshot subnet exists. Otherwise it is the baseline purpose. |
| Restore.RestorePurposesKeepsNames | api/v1alpha4/gcpcluster_conversion.go:41-50 | Restoration never changes the number, order or names of subnets. It never changes any field other than purpose. |
| Restore.LastNamed | api/v1alpha4/gcpcluster_conversion.go:41-50 | The winning snapshot subnet for a name has that name, and no later snapshot subnet has it. There is none exactly when no snapshot subnet has the name. |
| Restore.LastNamedSkips | api/v1alpha4/gcpcluster_conversion.go:41-50 | Removing a snapshot subnet of another name, from any position, does not change which snapshot subnet wins for a name. |
| Restore.UnmatchedSubnetIgnored | api/v1alpha4/gcpcluster_conversion.go:41-50 | A snapshot subnet whose name matches no baseline subnet has no effect, wherever it stands in the snapshot list. |
| Restore.LastNamedUnique | api/v1alpha4/gcpcluster_conversion.go:41-50 | When snapshot names are unique, the subnet that determines the purpose for a name is the one subnet with that name. |
| Restore.RestoreSubnetPurposes | api/v1alpha4/gcpcluster_conversion.go:41-50 | The nested loop with `continue` and `break`, as written, computes the functional restoration. |
| Restore.AppendRestoredTags | api/v1alpha4/gcpcluster_conversion.go:55-57 | The append loop yields the baseline tags followed by the snapshot tags, in order, with no deduplication. The length is the sum of the two lengths. |
| Restore.RestoreHubOnly | api/v1alpha4/gcpcluster_conversion.go:41-57 | Metadata and every shared spec field come from the baseline. Subnets follow the per-position reference. A present snapshot credentials reference replaces the baseline's; an absent one leaves it. Tags are the baseline's followed by the snapshot's. |
| Restore.RestoreTwice | api/v1alpha4/gcpcluster_conversion.go:41-57 | Restoring the same snapshot twice leaves the network and credentials as after one restoration, but the snapshot tags appear twice. |
| Conversion.ConvertTo | api/v1alpha4/gcpcluster_conversion.go:27-60 | A mapper error is returned before any decode. With no annotation, the result is exactly the mapper's output. An undecodable snapshot yields the decode error and no object. A decoded snapshot yields the restored object. Any success keeps the mapper's shared fields and, in this model, its metadata (the Go side effect on annotations is under Left out). |
| Conversion.ConvertFrom | api/v1alpha4/gcpcluster_conversion.go:62-76 | Fails exactly when the mapper or the encoder fails, with that error, and the mapper's error takes precedence. On success the spec, name and namespace are the mapper's. The snapshot annotation holds the encoding of the source hub object. Every other annotation of the mapper's output is kept, and exactly one key is added or overwritten. |
| Conversion.ConvertListTo | api/v1alpha4/gcpcluster_conversion.go:78-82 | The result is exactly the list mapper's output, with no snapshot decoding or restoration. |
| Conversion.ConvertListFrom | api/v1alpha4/gcpcluster_conversion.go:84-88 | The result is exactly the list mapper's output, with no snapshot written. |
| Conversion.DowngradeAlwaysSnapshots | api/v1alpha4/gcpcluster_conversion.go:62-76 | With a round-tripping codec, every successful down-conversion leaves a snapshot that decodes to the source's spec. |
| Conversion.RoundTripRestoresHubOnlyFields | api/v1alpha4/gcpcluster_conversion.go:27-76 | hub → old → hub succeeds and reproduces the credentials reference, the tags and every subnet purpose of the original. Preconditions: a round-tripping codec, and a mapped baseline with no credentials, no tags and the original's unique subnet names in order. |
| Conversion.RoundTripReproducesSpec | api/v1alpha4/gcpcluster_conversion.go:27-76 | If the mapper also carries every shared field across, hub → old → hub reproduces the original spec exactly. |
| Conversion.SubnetJoinExample | api/v1alpha4/gcpcluster_conversion.go:41-50 | Baseline subnets a and b with snapshot subnets b (PRIVATE) and c (PUBLIC): b gets PRIVATE, a is untouched and c is ignored. |
| Conversion.DuplicateNamesLastWins | api/v1alpha4/gcpcluster_conversion.go:41-50 | Two baseline subnets and two snapshot subnets all named a: only the first baseline subnet is set, and it takes the later snapshot subnet's purpose. So unique names are needed for a lossless round trip. |

Two behaviours of the code worth noting:

- The restore loop overlays only the first baseline subnet of each name, because of the `break`. `DuplicateNamesLastWins` shows the consequence.
- On a decode failure the Go code has already written the mapped baseline into the destination. The model returns `Failure` with no object, which is what a caller that honours the error sees.

## Left out

- The generated field mappers (`autoConvert_*`, `Convert_*`): not part of this model, so they are parameters. The thin wrappers `Convert_v1beta1_SubnetSpec_To_v1alpha4_SubnetSpec` and `Convert_v1beta1_GCPClusterSpec_To_v1alpha4_GCPClusterSpec` (lines 90-98) only call them, so they are inside `Mapper` and get no member of their own.
- The JSON serializer behind `MarshalData` and `UnmarshalData` in Cluster API's `util/conversion` package is not part of this model. The codec is a parameter. The round-trip lemmas assume only that the spec survives (`Snapshot.RoundTrips`), which is all restoration reads.
- Snapshot.UnmarshalData: does not delete the annotation from the source object after a successful decode. That side effect lives in the external package, and restoration does not depend on it.
- Conversion.ConvertTo: on the restored path, the result keeps the mapper's annotations, snapshot key included. In Go, the generated mapper copies `ObjectMeta` by value, so the old and hub objects share one annotations map. The decoder's delete of the snapshot key therefore also removes it from the returned hub object. Both the delete and the mapper are outside the code modelled here.
- Conversion.ConvertFrom: does not model that the snapshot write, through the same shared annotations map, also lands in the source hub object's annotations when that map is non-nil. The model treats the source as an unchanged input value.
- The annotation key `cluster.x-k8s.io/conversion-data` is defined in that external package. The model uses it as a constant.
- The resource's status, and spec fields other than a representative set: the conversion code never reads them, so each schema carries only a few shared fields.
- The runtime type assertions on `conversion.Hub` (which panic on a wrong type) and `DeepCopy` identity. The copied credentials and tags are never shared with the snapshot, so value semantics describe them fully. Map aliasing in metadata does matter; its two effects are listed above.
- The controller and webhook dispatch that calls these functions, and concurrency: conversion is a single synchronous call.
