/** How a return of the USB stack becomes the code a probe reports: through the
    adapter's status, the engine's transport status and the probe's code. */
module StatusPath {
  import opened CbiProtocol
  import opened MacAdapter
  import opened ProbeCommands

  /** Each kind of failure keeps its name through the engine. */
  lemma TransportKeepsKind(s: IoStatus)
    ensures MapIoStatus(s) == Success <==> s == Ok
    ensures MapIoStatus(s) == NotPermitted <==> s == Permission
    ensures MapIoStatus(s) == DeviceGone <==> s == NoDevice
    ensures MapIoStatus(s) == TimedOut <==> s == Timeout
    ensures MapIoStatus(s) == IoFailure <==> s == Error
    ensures MapIoStatus(s) == BadProtocol <==> s == Stall || s == Protocol
  {
  }

  /** A refused permission and a missing device reach the report as such;
      whatever else fails is a transport failure. */
  lemma CodeOfReturn(r: IoReturn, s: IoStatus)
    requires Reports(r, s)
    ensures var code := CodeForTransport(MapIoStatus(s));
            && (code == CodeOk <==> r == KSuccess)
            && (code == CodePermission <==> r in {KNotPrivileged, KNotPermitted, KExclusiveAccess})
            && (code == CodeNoDevice <==> r in {KNoDevice, KOffline})
            && (code == CodeTransport <==>
                  r in {KPipeStalled, KTimeout, KTransactionTimeout, KBadArgument, KUnsupported} || r.KOther?)
  {
  }
}
