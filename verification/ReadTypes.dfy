/** What client reads exchange with metadata, data nodes and the health subsystem. */
module ReadTypes {
  import opened Base

  type Bytes = seq<bv8>
  type Checksum = string

  datatype ReadError =
    | ExtentNotFound(volumeId: VolumeId, extentId: ExtentId)
    | NoHealthyReplicas(extentId: ExtentId)
    | AllReplicasFailed(extentId: ExtentId)
    | AllReplicasCorrupt(extentId: ExtentId)
    | ChecksumMismatch(nodeId: NodeId, extentId: ExtentId, expected: Checksum, actual: Checksum)
    | StaleMapping(extentId: ExtentId, mappingVersion: nat, requiredVersion: nat)
    | MetadataRefreshFailed
    | DataNodeReadFailed(nodeId: NodeId)
    | InvalidRequest

  datatype ReadRequest = ReadRequest(volumeId: VolumeId, extentId: ExtentId, offset: nat, length: nat)

  datatype ReadResult = ReadResult(extentId: ExtentId, extentVersion: nat, data: Bytes, sourceNode: NodeId)

  datatype ReplicaLocation = ReplicaLocation(nodeId: NodeId, isLocal: bool)

  datatype ExtentMapping = ExtentMapping(
    extentId: ExtentId, extentVersion: nat, replicas: seq<ReplicaLocation>, checksum: Checksum)
}
