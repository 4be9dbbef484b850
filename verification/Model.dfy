/** The monitored entities, as values. Percentages and temperatures are exact reals. */
module Model {
  import opened Wrappers

  /** SMART status bits. */
  type Status = bv8
  const PASSED: Status := 0
  const FAILED_SMART: Status := 1
  const WARN_SCRUTINY: Status := 2
  const FAILED_SCRUTINY: Status := 4
  const INTERNAL_ERROR: Status := 16

  datatype Node = Node(name: string, status: string, cpu: real, memUsed: int, memTotal: int, temperature: Option<real>)

  datatype Guest = Guest(instance: string, vmid: int, name: string, status: string)

  /** `failureRate` is in thousandths a year. */
  datatype Attribute = Attribute(
    id: int,
    value: int,
    threshold: int,
    raw: int,
    status: Status,
    failureRate: Option<int>)

  datatype Protocol = Ata | Nvme | OtherProtocol

  datatype Disk = Disk(
    instance: string,
    wwn: string,
    devPath: string,
    protocol: Protocol,
    health: string,
    status: Status,
    temperature: Option<int>,
    powerOnHours: Option<int>,
    wearout: Option<int>,
    attributes: seq<Attribute>)

  datatype Backup = Backup(datastore: string, backupType: string, backupId: string, backupTime: int)

  datatype Datastore = Datastore(name: string, totalBytes: Option<int>, usedBytes: Option<int>, error: Option<string>)

  datatype Task = Task(upid: string, startTime: int, status: string)

  datatype Snapshot = Snapshot(
    nodes: map<string, map<string, Node>>,
    guests: map<string, map<int, Guest>>,
    disks: map<string, Disk>,
    datastores: map<string, map<string, Datastore>>,
    backups: map<string, map<string, Backup>>,
    tasks: map<string, seq<Task>>,
    lastPoll: map<string, int>)
}
