/**
 * The start-up sequence: find the button, open it, check that it has one
 * interface with one endpoint, get the kernel driver out of the way (or stop),
 * claim the interface, set the endpoint timeout, and check that the endpoint is
 * an interrupt IN endpoint. The USB library is replaced by a descriptor record
 * of what the device reports; the side effects performed on it are logged.
 */
module Setup {
  import opened Wrappers

  /** Process exit codes of the driver (in addition to Node's own). */
  const ExitCodeButtonNotFound: int := 30
  const ExitCodeKernelDriverPresent: int := 31
  const ExitCodeAccessDenied: int := 32

  /** libusb's error number for "access denied (insufficient permissions)". */
  const LibusbErrorAccess: int := -3

  datatype Direction = In | Out
  datatype TransferType = Control | Isochronous | Bulk | Interrupt

  /** What `open()` does: succeed, or throw an error carrying a libusb error number. */
  datatype OpenResult = Opened | OpenError(errnum: int)

  datatype Endpoint = Endpoint(direction: Direction, transferType: TransferType)
  datatype Interface = Interface(endpoints: seq<Endpoint>, kernelDriverActive: bool)

  /** A device found by vendor and product id, as its descriptors describe it. */
  datatype Device = Device(open: OpenResult, interfaces: seq<Interface>)

  /** The changes setup makes to the device, in the order made. */
  datatype Effect = DetachKernelDriver | Claim | SetTimeout(millis: int)

  /** How setup ends: one of its failures, or ready to poll. */
  datatype SetupOutcome =
    | NotFound
    | AccessDenied
    | InterfaceCountMismatch(interfaceCount: nat)
    | EndpointCountMismatch(endpointCount: nat)
    | DriverPresent
    | BadDirection(direction: Direction)
    | BadTransferType(transferType: TransferType)
    | Ready

  /** How the process ends after a setup outcome. */
  datatype Termination =
    | Exit(code: int)   // process.exit(code)
    | Uncaught          // a thrown Error that nothing catches
    | Polling           // setup succeeded; the poll loop takes over

  /** The termination each setup outcome leads to. */
  function TerminationOf(o: SetupOutcome): (r: Termination)
    ensures r == Polling <==> o == Ready
    ensures r == Exit(ExitCodeButtonNotFound) <==> o == NotFound
    ensures r == Exit(ExitCodeKernelDriverPresent) <==> o == DriverPresent
    ensures r == Exit(ExitCodeAccessDenied) <==> o == AccessDenied
    ensures r == Uncaught <==>
      o.InterfaceCountMismatch? || o.EndpointCountMismatch? || o.BadDirection? || o.BadTransferType?
  {
    match o
    case NotFound => Exit(ExitCodeButtonNotFound)
    case AccessDenied => Exit(ExitCodeAccessDenied)
    case DriverPresent => Exit(ExitCodeKernelDriverPresent)
    case Ready => Polling
    case _ => Uncaught
  }

  /** Two setup failures that exit with the same code are the same failure. */
  lemma ExitCodesDistinct(o1: SetupOutcome, o2: SetupOutcome)
    requires TerminationOf(o1).Exit? && TerminationOf(o1) == TerminationOf(o2)
    ensures o1 == o2
  {
  }

  // ---------------------------------------------------------------------
  // Reference definition: the checks of setup, applied in a fixed order.
  // ---------------------------------------------------------------------

  /** The checks made on a found device. */
  datatype Check =
    | OpenPermitted      // open() did not fail with access denied
    | SingleInterface    // exactly one interface
    | SingleEndpoint     // that interface has exactly one endpoint
    | DriverReleasable   // no kernel driver, or allowed to detach it
    | DirectionIn        // the endpoint is an IN endpoint
    | InterruptTransfer  // the endpoint uses interrupt transfers

  /** The checks made before the interface is claimed, in order. */
  const ClaimChecks: seq<Check> := [OpenPermitted, SingleInterface, SingleEndpoint, DriverReleasable]

  /** The checks made on the endpoint after the claim, in order. */
  const EndpointChecks: seq<Check> := [DirectionIn, InterruptTransfer]

  /** The failure check `c` reports on `d`, if any; each inspects only what exists. */
  function Failure(c: Check, d: Device, detach: bool): (r: Option<SetupOutcome>)
    ensures r != Some(Ready) && r != Some(NotFound)
    ensures c == OpenPermitted ==> (r.Some? <==> d.open == OpenError(LibusbErrorAccess)) && (r.Some? ==> r.value == AccessDenied)
    ensures c == SingleInterface ==> (r.Some? <==> |d.interfaces| != 1) && (r.Some? ==> r.value.InterfaceCountMismatch?)
    ensures c == SingleEndpoint && |d.interfaces| == 1 ==>
      (r.Some? <==> |d.interfaces[0].endpoints| != 1) && (r.Some? ==> r.value.EndpointCountMismatch?)
    ensures c == DriverReleasable && |d.interfaces| == 1 ==>
      (r.Some? <==> d.interfaces[0].kernelDriverActive && !detach) && (r.Some? ==> r.value == DriverPresent)
    ensures c == DirectionIn && |d.interfaces| == 1 && |d.interfaces[0].endpoints| == 1 ==>
      (r.Some? <==> d.interfaces[0].endpoints[0].direction != In) && (r.Some? ==> r.value.BadDirection?)
    ensures c == InterruptTransfer && |d.interfaces| == 1 && |d.interfaces[0].endpoints| == 1 ==>
      (r.Some? <==> d.interfaces[0].endpoints[0].transferType != Interrupt) && (r.Some? ==> r.value.BadTransferType?)
  {
    var ifaces := d.interfaces;
    match c
    case OpenPermitted =>
      if d.open == OpenError(LibusbErrorAccess) then Some(AccessDenied) else None
    case SingleInterface =>
      if |ifaces| != 1 then Some(InterfaceCountMismatch(|ifaces|)) else None
    case SingleEndpoint =>
      if |ifaces| == 1 && |ifaces[0].endpoints| != 1
      then Some(EndpointCountMismatch(|ifaces[0].endpoints|)) else None
    case DriverReleasable =>
      if |ifaces| == 1 && ifaces[0].kernelDriverActive && !detach then Some(DriverPresent) else None
    case DirectionIn =>
      if |ifaces| == 1 && |ifaces[0].endpoints| == 1 && ifaces[0].endpoints[0].direction != In
      then Some(BadDirection(ifaces[0].endpoints[0].direction)) else None
    case InterruptTransfer =>
      if |ifaces| == 1 && |ifaces[0].endpoints| == 1 && ifaces[0].endpoints[0].transferType != Interrupt
      then Some(BadTransferType(ifaces[0].endpoints[0].transferType)) else None
  }

  /** The failure of the first check in `checks` that fails, or `Ready` if none does. */
  function FirstFailure(d: Device, detach: bool, checks: seq<Check>): (r: SetupOutcome)
    ensures r != NotFound
    ensures r == Ready <==> forall i :: 0 <= i < |checks| ==> Failure(checks[i], d, detach).None?
  {
    if checks == [] then Ready
    else
      match Failure(checks[0], d, detach)
      case Some(o) => o
      case None =>
        var r := FirstFailure(d, detach, checks[1..]);
        assert forall i :: 1 <= i < |checks| ==> checks[i] == checks[1..][i - 1];
        r
  }

  /** The first check to fail decides the outcome, whatever the later checks would say. */
  lemma {:induction false} FirstFailureAt(d: Device, detach: bool, checks: seq<Check>, k: nat)
    requires k < |checks| && Failure(checks[k], d, detach).Some?
    requires forall j :: 0 <= j < k ==> Failure(checks[j], d, detach).None?
    ensures FirstFailure(d, detach, checks) == Failure(checks[k], d, detach).value
  {
    if k > 0 {
      assert checks[1..][k - 1] == checks[k];
      FirstFailureAt(d, detach, checks[1..], k - 1);
    }
  }

  /** A first failure is the failure some check in the list reports. */
  lemma {:induction false} FirstFailureReported(d: Device, detach: bool, checks: seq<Check>)
    ensures FirstFailure(d, detach, checks) == Ready ||
            exists i :: 0 <= i < |checks| && Failure(checks[i], d, detach) == Some(FirstFailure(d, detach, checks))
  {
    if checks != [] && Failure(checks[0], d, detach).None? {
      FirstFailureReported(d, detach, checks[1..]);
      if FirstFailure(d, detach, checks) != Ready {
        var i :| 0 <= i < |checks[1..]| && Failure(checks[1..][i], d, detach) == Some(FirstFailure(d, detach, checks));
        assert checks[i + 1] == checks[1..][i];
      }
    }
  }

  /** Running two lists of checks in turn: the first failure of the first, else of the second. */
  lemma {:induction false} FirstFailureAppend(d: Device, detach: bool, c1: seq<Check>, c2: seq<Check>)
    ensures FirstFailure(d, detach, c1 + c2) ==
            if FirstFailure(d, detach, c1) == Ready then FirstFailure(d, detach, c2) else FirstFailure(d, detach, c1)
  {
    if c1 == [] {
      assert c1 + c2 == c2;
    } else {
      assert (c1 + c2)[0] == c1[0] && (c1 + c2)[1..] == c1[1..] + c2;
      FirstFailureAppend(d, detach, c1[1..], c2);
    }
  }

  /** The outcome setup should reach. */
  function SetupSpec(found: Option<Device>, detach: bool): SetupOutcome
  {
    match found
    case None => NotFound
    case Some(d) => FirstFailure(d, detach, ClaimChecks + EndpointChecks)
  }

  /** The effects setup should make: detach (only if a driver is bound), claim, timeout. */
  function EffectsSpec(found: Option<Device>, detach: bool, timeout: int): seq<Effect>
  {
    match found
    case None => []
    case Some(d) =>
      if FirstFailure(d, detach, ClaimChecks) != Ready then []
      else
        assert Failure(ClaimChecks[1], d, detach).None?;
        (if d.interfaces[0].kernelDriverActive then [DetachKernelDriver] else [])
           + [Claim, SetTimeout(timeout)]
  }

  // ---------------------------------------------------------------------
  // The start-up sequence itself.
  // ---------------------------------------------------------------------

  /**
   * The top-level statements of the driver up to the first `poll()`:
   * `found` is what `findByIds` returned, `detach` the `-d` flag and
   * `timeout` the `-t` value applied to the endpoint.
   */
  method RunSetup(found: Option<Device>, detach: bool, timeout: int)
    returns (outcome: SetupOutcome, effects: seq<Effect>)
    ensures outcome == SetupSpec(found, detach)
    ensures effects == EffectsSpec(found, detach, timeout)
  {
    effects := [];
    if found.None? {
      return NotFound, effects;
    }
    var button := found.value;
    FirstFailureAppend(button, detach, ClaimChecks, EndpointChecks);
    // Only an access error from open() is fatal; any other is swallowed.
    if button.open.OpenError? && button.open.errnum == LibusbErrorAccess {
      FirstFailureAt(button, detach, ClaimChecks, 0);
      return AccessDenied, effects;
    }
    if |button.interfaces| != 1 {
      FirstFailureAt(button, detach, ClaimChecks, 1);
      return InterfaceCountMismatch(|button.interfaces|), effects;
    }
    var iface := button.interfaces[0];
    if |iface.endpoints| != 1 {
      FirstFailureAt(button, detach, ClaimChecks, 2);
      return EndpointCountMismatch(|iface.endpoints|), effects;
    }
    if iface.kernelDriverActive {
      if detach {
        effects := effects + [DetachKernelDriver];
      } else {
        FirstFailureAt(button, detach, ClaimChecks, 3);
        return DriverPresent, effects;
      }
    }
    effects := effects + [Claim];
    var endpoint := iface.endpoints[0];
    effects := effects + [SetTimeout(timeout)];
    assert FirstFailure(button, detach, ClaimChecks) == Ready;
    if endpoint.direction != In {
      FirstFailureAt(button, detach, EndpointChecks, 0);
      outcome := BadDirection(endpoint.direction);
    } else if endpoint.transferType != Interrupt {
      FirstFailureAt(button, detach, EndpointChecks, 1);
      outcome := BadTransferType(endpoint.transferType);
    } else {
      outcome := Ready;
    }
  }

  // ---------------------------------------------------------------------
  // Properties of the order of the checks.
  // ---------------------------------------------------------------------

  /** An open() error other than access denied is ignored: setup goes on as if open had worked. */
  lemma OtherOpenErrorIgnored(d: Device, detach: bool, timeout: int, errnum: int)
    requires errnum != LibusbErrorAccess
    ensures SetupSpec(Some(d.(open := OpenError(errnum))), detach) == SetupSpec(Some(d.(open := Opened)), detach)
    ensures EffectsSpec(Some(d.(open := OpenError(errnum))), detach, timeout)
         == EffectsSpec(Some(d.(open := Opened)), detach, timeout)
  {
    var d1, d2 := d.(open := OpenError(errnum)), d.(open := Opened);
    assert forall c :: Failure(c, d1, detach) == Failure(c, d2, detach);
    FirstFailureSame(d1, d2, detach, ClaimChecks + EndpointChecks);
    FirstFailureSame(d1, d2, detach, ClaimChecks);
  }

  /** Devices on which every check says the same thing reach the same first failure. */
  lemma {:induction false} FirstFailureSame(d1: Device, d2: Device, detach: bool, checks: seq<Check>)
    requires forall c :: Failure(c, d1, detach) == Failure(c, d2, detach)
    ensures FirstFailure(d1, detach, checks) == FirstFailure(d2, detach, checks)
  {
    if checks != [] {
      FirstFailureSame(d1, d2, detach, checks[1..]);
    }
  }

  /** Any interface count but one fails on the count, whatever the endpoints or driver look like. */
  lemma InterfaceCountCheckedFirst(d: Device, detach: bool, timeout: int)
    requires d.open != OpenError(LibusbErrorAccess)
    requires |d.interfaces| != 1
    ensures SetupSpec(Some(d), detach) == InterfaceCountMismatch(|d.interfaces|)
    ensures EffectsSpec(Some(d), detach, timeout) == []
  {
    FirstFailureAppend(d, detach, ClaimChecks, EndpointChecks);
    FirstFailureAt(d, detach, ClaimChecks, 1);
  }

  /** A wrong endpoint count fails before the kernel driver is looked at: nothing is detached. */
  lemma EndpointCountCheckedBeforeDriver(d: Device, detach: bool, timeout: int)
    requires d.open != OpenError(LibusbErrorAccess)
    requires |d.interfaces| == 1 && |d.interfaces[0].endpoints| != 1
    ensures SetupSpec(Some(d), detach) == EndpointCountMismatch(|d.interfaces[0].endpoints|)
    ensures EffectsSpec(Some(d), detach, timeout) == []
  {
    FirstFailureAppend(d, detach, ClaimChecks, EndpointChecks);
    FirstFailureAt(d, detach, ClaimChecks, 2);
  }

  /** A bound kernel driver without `-d`: exit code 31, and the interface is never claimed. */
  lemma DriverPresentStops(d: Device, timeout: int)
    requires d.open != OpenError(LibusbErrorAccess)
    requires |d.interfaces| == 1 && |d.interfaces[0].endpoints| == 1
    requires d.interfaces[0].kernelDriverActive
    ensures SetupSpec(Some(d), false) == DriverPresent
    ensures TerminationOf(SetupSpec(Some(d), false)) == Exit(ExitCodeKernelDriverPresent)
    ensures Claim !in EffectsSpec(Some(d), false, timeout)
  {
    FirstFailureAppend(d, false, ClaimChecks, EndpointChecks);
    FirstFailureAt(d, false, ClaimChecks, 3);
  }

  /** A bound kernel driver with `-d`: it is detached, then the interface is claimed and the timeout set. */
  lemma DriverDetachedThenClaimed(d: Device, timeout: int)
    requires d.open != OpenError(LibusbErrorAccess)
    requires |d.interfaces| == 1 && |d.interfaces[0].endpoints| == 1
    requires d.interfaces[0].kernelDriverActive
    ensures SetupSpec(Some(d), true) != DriverPresent
    ensures EffectsSpec(Some(d), true, timeout) == [DetachKernelDriver, Claim, SetTimeout(timeout)]
  {
    FirstFailureAppend(d, true, ClaimChecks, EndpointChecks);
  }

  /** Without a bound kernel driver nothing is ever detached. */
  lemma NoDriverNoDetach(found: Option<Device>, detach: bool, timeout: int)
    requires found.Some? ==> forall i :: 0 <= i < |found.value.interfaces| ==> !found.value.interfaces[i].kernelDriverActive
    ensures DetachKernelDriver !in EffectsSpec(found, detach, timeout)
  {
    if found.Some? && FirstFailure(found.value, detach, ClaimChecks) == Ready {
      assert Failure(ClaimChecks[1], found.value, detach).None?;
    }
  }

  /**
   * The claim and the timeout come before the endpoint checks: an endpoint
   * that is not an interrupt IN endpoint is found only after the interface
   * has been claimed and its timeout set.
   */
  lemma ClaimPrecedesEndpointChecks(found: Option<Device>, detach: bool, timeout: int)
    requires SetupSpec(found, detach).BadDirection? || SetupSpec(found, detach).BadTransferType?
          || SetupSpec(found, detach) == Ready
    ensures var e := EffectsSpec(found, detach, timeout);
            |e| >= 2 && e[|e| - 2] == Claim && e[|e| - 1] == SetTimeout(timeout)
  {
    var d := found.value;
    FirstFailureAppend(d, detach, ClaimChecks, EndpointChecks);
    FirstFailureReported(d, detach, ClaimChecks);
  }

  /** A failure before the claim leaves the device untouched: nothing detached, nothing claimed. */
  lemma EarlyFailureTouchesNothing(found: Option<Device>, detach: bool, timeout: int)
    requires !(SetupSpec(found, detach).BadDirection? || SetupSpec(found, detach).BadTransferType?
               || SetupSpec(found, detach) == Ready)
    ensures EffectsSpec(found, detach, timeout) == []
  {
    if found.Some? {
      var d := found.value;
      FirstFailureAppend(d, detach, ClaimChecks, EndpointChecks);
      FirstFailureReported(d, detach, EndpointChecks);
    }
  }

  /** Direction is checked before transfer type: an OUT endpoint fails on its direction whatever its type. */
  lemma DirectionCheckedBeforeTransferType(d: Device, detach: bool)
    requires d.open != OpenError(LibusbErrorAccess)
    requires |d.interfaces| == 1 && |d.interfaces[0].endpoints| == 1
    requires !d.interfaces[0].kernelDriverActive || detach
    requires d.interfaces[0].endpoints[0].direction != In
    ensures SetupSpec(Some(d), detach) == BadDirection(d.interfaces[0].endpoints[0].direction)
  {
    FirstFailureAppend(d, detach, ClaimChecks, EndpointChecks);
    FirstFailureAt(d, detach, EndpointChecks, 0);
  }

  /** Setup is ready to poll exactly when the device is found and passes every check. */
  lemma ReadyIff(found: Option<Device>, detach: bool)
    ensures SetupSpec(found, detach) == Ready <==>
      found.Some? &&
      found.value.open != OpenError(LibusbErrorAccess) &&
      |found.value.interfaces| == 1 &&
      |found.value.interfaces[0].endpoints| == 1 &&
      (!found.value.interfaces[0].kernelDriverActive || detach) &&
      found.value.interfaces[0].endpoints[0].direction == In &&
      found.value.interfaces[0].endpoints[0].transferType == Interrupt
  {
    if found.Some? {
      var d := found.value;
      var all := ClaimChecks + EndpointChecks;
      assert all == [OpenPermitted, SingleInterface, SingleEndpoint, DriverReleasable, DirectionIn, InterruptTransfer];
      if FirstFailure(d, detach, all) == Ready {
        assert Failure(all[0], d, detach).None? && Failure(all[1], d, detach).None?;
        assert Failure(all[2], d, detach).None? && Failure(all[3], d, detach).None?;
        assert Failure(all[4], d, detach).None? && Failure(all[5], d, detach).None?;
      }
    }
  }
}
