/** The sd_notify(3) state messages of systemd/notify.go. Each wrapper builds
    one message and hands it to Notify, returning Notify's result unchanged. */
module NotifyMessages {
  import opened Wrappers
  import opened SystemdHost
  import Decimal
  import Format
  import N = Notify

  const Ready := "READY=1"
  const Stopping := "STOPPING=1"
  const Pulse := "WATCHDOG=1"
  const StatusPrefix := "STATUS="
  const ReloadingPrefix := "RELOADING=1\nMONOTONIC_USEC="

  /** `STATUS=` followed by the status text verbatim: stripping the prefix gives the text back. */
  function StatusMessage(status: string): (m: string)
    ensures |m| == |StatusPrefix| + |status|
    ensures StatusPrefix <= m && m[|StatusPrefix|..] == status
  {
    Format.StringVerb(StatusPrefix, status);
    Format.Sprintf(StatusPrefix + "%s", [Format.Str(status)])
  }

  /** The reload notification with a monotonic timestamp in microseconds: after the
      fixed prefix comes a number that parses back to the timestamp. */
  function ReloadingMessage(now: int): (m: string)
    ensures ReloadingPrefix <= m
    ensures 0 <= now <= Decimal.MaxUint64 ==> Decimal.ParseUint(m[|ReloadingPrefix|..]) == Some(now)
    ensures now < 0 ==> m[|ReloadingPrefix|..] == "-" + Decimal.FormatUint(-now)
  {
    Format.IntVerb(ReloadingPrefix, now);
    Decimal.FormatThenParse(now);
    Format.Sprintf(ReloadingPrefix + "%d", [Format.Int(now)])
  }

  /** `NotifyReady`. */
  method NotifyReady(env: map<string, string>, host: Host) returns (err: Option<N.NotifyError>)
    modifies host
    ensures (err, host.State()) == N.NotifyEffect(env, Ready, old(host.State()))
  {
    err := N.Notify(env, Ready, host);
  }

  /** `NotifyReloading`; the clock reading `time.Now().UnixMicro()` is the parameter `now`. */
  method NotifyReloading(env: map<string, string>, now: int, host: Host) returns (err: Option<N.NotifyError>)
    modifies host
    ensures (err, host.State()) == N.NotifyEffect(env, ReloadingMessage(now), old(host.State()))
  {
    Format.IntVerb(ReloadingPrefix, now);
    err := N.Notifyf(env, ReloadingPrefix + "%d", [Format.Int(now)], host);
  }

  /** `NotifyStatus`. */
  method NotifyStatus(env: map<string, string>, status: string, host: Host) returns (err: Option<N.NotifyError>)
    modifies host
    ensures (err, host.State()) == N.NotifyEffect(env, StatusMessage(status), old(host.State()))
  {
    Format.StringVerb(StatusPrefix, status);
    err := N.Notifyf(env, StatusPrefix + "%s", [Format.Str(status)], host);
  }

  /** `NotifyStopping`. */
  method NotifyStopping(env: map<string, string>, host: Host) returns (err: Option<N.NotifyError>)
    modifies host
    ensures (err, host.State()) == N.NotifyEffect(env, Stopping, old(host.State()))
  {
    err := N.Notify(env, Stopping, host);
  }

  /** `NotifyWatchdog`: one liveness pulse. */
  method NotifyWatchdog(env: map<string, string>, host: Host) returns (err: Option<N.NotifyError>)
    modifies host
    ensures (err, host.State()) == N.NotifyEffect(env, Pulse, old(host.State()))
  {
    err := N.Notify(env, Pulse, host);
  }
}
