/** What the firewall_facts module can observe of a host, as plain values.

    The Ansible module probes the host three ways: it runs
    `systemctl is-active|is-enabled <service>`, it reads `/etc/rc.conf`, and it
    calls `os.stat` on device nodes under `/dev`. Here each probe's answer is
    part of a `Machine` value, and each detector reports the probes it issued
    as a trace, so that the order and the short-circuiting of the module's
    probes can be stated. */
module Host {

  datatype Option<T> = None | Some(value: T)

  /** The exception Python raises from `open` and `os.stat` on a missing path. */
  datatype OsError = FileNotFound(path: string)

  /** A value, or the exception that escaped while computing it. */
  datatype Result<T> = Ok(value: T) | Err(error: OsError)

  /** One observable interaction with the host. */
  datatype Probe =
    | IsActive(service: string)    // systemctl is-active <service>
    | IsEnabled(service: string)   // systemctl is-enabled <service>
    | OpenRcConf                   // open('/etc/rc.conf').readlines()
    | StatDev(path: string)        // os.stat(<path>)

  /** A result together with the probes issued, in order, to compute it. */
  datatype Run<T> = Run(value: T, probes: seq<Probe>)

  /** The host state the probes observe.
      `activeRc`/`enabledRc` give the exit code systemctl returns for each
      service; `rcConf` is the line list of `/etc/rc.conf`, `None` when the
      file does not exist; `devices` holds the names present under `/dev`. */
  datatype Machine = Machine(
    activeRc: string -> int,
    enabledRc: string -> int,
    rcConf: Option<seq<string>>,
    devices: set<string>)

  const RcConfPath: string := "/etc/rc.conf"

  function DevPath(name: string): string
  {
    "/dev/" + name
  }

  /** The lines `open(RcConfPath).readlines()` yields, or the exception it raises. */
  function ReadRcConf(m: Machine): (r: Result<seq<string>>)
    ensures r.Err? <==> m.rcConf.None?
    ensures r.Err? ==> r.error == FileNotFound(RcConfPath)
    ensures r.Ok? ==> Some(r.value) == m.rcConf
  {
    match m.rcConf
    case None => Err(FileNotFound(RcConfPath))
    case Some(lines) => Ok(lines)
  }

  /** `os.stat` returns a stat_result, a tuple of ten fields. */
  datatype StatResult = StatResult(fields: nat)

  const StatFieldCount: nat := 10

  /** `os.stat('/dev/' + name)`: a stat tuple when the node exists, an exception otherwise. */
  function StatDevice(m: Machine, name: string): (r: Result<StatResult>)
    ensures r.Ok? <==> name in m.devices
    ensures r.Err? ==> r.error == FileNotFound(DevPath(name))
    ensures r.Ok? ==> r.value.fields > 0
  {
    if name in m.devices then Ok(StatResult(StatFieldCount)) else Err(FileNotFound(DevPath(name)))
  }

  /** Python truthiness of a tuple: it is true when the tuple is not empty. */
  predicate Truthy(s: StatResult)
  {
    s.fields > 0
  }
}
