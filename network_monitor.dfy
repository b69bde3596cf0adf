/** `NetworkMonitor` (`utils/network_monitor.py`): the online/offline map
    of the configured network devices, updated one ping at a time and
    announced only on change. The ping itself is a parameter of each
    check: what `ping3.ping` returned, or that it raised. */
module NetworkMonitoring {
  import opened Builtins

  /** A value `ping` can return: a delay, `False`, or `None`. */
  datatype PingValue = Delay(seconds: real) | FalseValue | NoneValue

  /** `response is not None`, with a raised ping counting as offline. */
  function IsOnline(response: Outcome<PingValue>): (r: bool)
    ensures !r <==> response.Raised? || response == Normal(NoneValue)
  {
    match response
    case Raised(_) => false
    case Normal(v) => v != NoneValue
  }

  /** Every device starts offline. */
  function InitialStatus(devices: seq<string>): (r: map<string, bool>)
    ensures r.Keys == set ip | ip in devices
    ensures forall ip :: ip in r ==> !r[ip]
  {
    map ip | ip in devices :: false
  }

  class NetworkMonitor {
    const devices: seq<string>
    var pingStatus: map<string, bool>
    /** The `(ip, is_online)` pairs `ping_status_changed` emitted. */
    ghost var signals: seq<(string, bool)>

    /** Every configured device has an entry. */
    predicate KnowsDevices()
      reads this
    {
      forall ip :: ip in devices ==> ip in pingStatus
    }

    constructor (devices: seq<string>)
      ensures this.devices == devices
      ensures pingStatus == InitialStatus(devices) && signals == []
      ensures KnowsDevices()
    {
      this.devices := devices;
      pingStatus := InitialStatus(devices);
      signals := [];
    }

    /** `get_status(ip)`: the stored value, False for an unknown device. */
    function GetStatus(ip: string): (r: bool)
      reads this
      ensures r <==> ip in pingStatus && pingStatus[ip]
      ensures ip !in pingStatus ==> !r
    {
      if ip in pingStatus then pingStatus[ip] else false
    }

    /** `get_all_statuses()`: a copy of the whole map, agreeing with
      `GetStatus` on every entry. A Dafny map is a value, so changing the
      copy cannot change the monitor. */
    method GetAllStatuses() returns (r: map<string, bool>)
      ensures r.Keys == pingStatus.Keys
      ensures forall ip :: ip in r ==> r[ip] == GetStatus(ip)
    {
      r := pingStatus;
    }

    /** `_check_device(ip)` given what the ping did: store the new value
      and announce it when it differs from the stored one, which includes
      a device not in the map yet. */
    method CheckDevice(ip: string, response: Outcome<PingValue>)
      modifies this`pingStatus, this`signals
      ensures var online := IsOnline(response);
        pingStatus == old(pingStatus)[ip := online] && GetStatus(ip) == online
      ensures var online := IsOnline(response);
        (ip !in old(pingStatus) || old(pingStatus)[ip] != online) <==> signals == old(signals) + [(ip, online)]
      ensures var online := IsOnline(response);
        ip in old(pingStatus) && old(pingStatus)[ip] == online ==> signals == old(signals)
      ensures forall other :: other != ip ==> GetStatus(other) == old(GetStatus(other))
      ensures old(KnowsDevices()) ==> KnowsDevices()
    {
      var online := IsOnline(response);
      if ip !in pingStatus || pingStatus[ip] != online {
        pingStatus := pingStatus[ip := online];
        signals := signals + [(ip, online)];
      } else {
        assert pingStatus == pingStatus[ip := online];
      }
    }
  }

  /** `ping` returning `False` is not `None`, so it counts as online; only
      `None` and a raised exception count as offline. */
  lemma FalseCountsOnline()
    ensures IsOnline(Normal(FalseValue))
    ensures !IsOnline(Normal(NoneValue)) && !IsOnline(Raised(TypeError))
  {
  }
}
