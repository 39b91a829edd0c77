/**
 * The TPM service as it runs: fields and control pages updated in place, one
 * register after another. Each method is proved to do exactly what `TpmSpec`
 * says. A `reply` is what the device library answers if the method calls it.
 */
module TpmService {
  import opened Outcomes
  import opened TpmSpec
  import opened Words

  class TpmService {
    var currentState: TpmState
    var activeLocality: nat
    var interfaceIdDefault: bv32
    const localityStates: array<LocalityState>
    const crb: array<Page>
    const crbAddress: nat
    var notificationRegistered: bool
    var idleBypass: bool
    ghost var log: seq<Event>

    ghost function Contents(): State
      reads this, localityStates, crb
    {
      State(currentState, activeLocality, interfaceIdDefault, localityStates[..], notificationRegistered,
            crb[..], crbAddress, idleBypass, log)
    }

    ghost predicate Consistent()
      reads this, localityStates, crb
    {
      Valid(Contents())
    }

    /** `memory` is the region of control pages at `address`. */
    constructor (memory: array<Page>, address: nat)
      requires memory.Length == NUM_LOCALITIES && address + NUM_LOCALITIES * PAGE_SIZE <= 0x1_0000_0000_0000_0000
      ensures Consistent() && crb == memory && fresh(localityStates)
      ensures Contents() == New(memory[..], address)
    {
      currentState := Idle;
      activeLocality := NO_ACTIVE_LOCALITY;
      interfaceIdDefault := 0;
      localityStates := new LocalityState[NUM_LOCALITIES](_ => Closed);
      crb := memory;
      crbAddress := address;
      notificationRegistered := false;
      idleBypass := false;
      log := [];
      new;
      assert localityStates[..] == [Closed, Closed, Closed, Closed, Closed];
    }

    // The command and response registers tell where the page's own buffer is.
    method PointAtBuffer(page: Page, locality: nat) returns (next: Page)
      requires Consistent() && locality < NUM_LOCALITIES
      ensures var address := BufferAddress(crbAddress, locality);
              next == page.(commandAddressHigh := address / 0x1_0000_0000,
                            commandAddressLow := address % 0x1_0000_0000, commandSize := CRB_DATA_BUFFER_SIZE,
                            responseAddress := address, responseSize := CRB_DATA_BUFFER_SIZE)
    {
      var bufferAddress := BufferAddress(crbAddress, locality);
      next := page.(commandAddressHigh := bufferAddress / 0x1_0000_0000);
      next := next.(commandAddressLow := bufferAddress % 0x1_0000_0000);
      next := next.(commandSize := CRB_DATA_BUFFER_SIZE);
      next := next.(responseAddress := bufferAddress);
      next := next.(responseSize := CRB_DATA_BUFFER_SIZE);
    }

    // Nothing is requested, and the identifier is the service's.
    method ClearRegisters(page: Page) returns (next: Page)
      ensures next == page.(localityControl := 0, interfaceId := interfaceIdDefault, controlExtension := 0,
                            controlRequest := 0, controlCancel := 0, controlStart := 0,
                            interruptEnable := 0, interruptStatus := 0)
    {
      next := page.(localityControl := 0);
      next := next.(interfaceId := interfaceIdDefault);
      next := next.(controlExtension := 0);
      next := next.(controlRequest := 0);
      next := next.(controlCancel := 0);
      next := next.(controlStart := 0);
      next := next.(interruptEnable := 0);
      next := next.(interruptStatus := 0);
    }

    method InitInternalCrb(locality: nat)
      requires Consistent() && locality < NUM_LOCALITIES
      modifies crb
      ensures crb[..] == old(crb[..])[locality := InitPage(crbAddress, locality, interfaceIdDefault)]
    {
      crb[locality] := Page(0, 0, 0, 0, 0, 0, 0, 0, 0, 0, 0, 0, 0, 0, 0, 0, Zeros(CRB_DATA_BUFFER_SIZE));
      var page := crb[locality];
      page := page.(interfaceId := interfaceIdDefault);
      page := page.(controlStatus := TPM_IDLE);
      page := PointAtBuffer(page, locality);
      crb[locality] := page;
    }

    // Marks the locality state register with the active locality.
    method MarkActive(register: bv32) returns (localityState: bv32)
      requires activeLocality < NUM_LOCALITIES
      ensures localityState == Marked(register, activeLocality)
    {
      localityState := register;
      match activeLocality {
        case 0 => localityState := localityState | ACTIVE_LOCALITY_0;
        case 1 => localityState := localityState | ACTIVE_LOCALITY_1;
        case 2 => localityState := localityState | ACTIVE_LOCALITY_2;
        case 3 => localityState := localityState | ACTIVE_LOCALITY_3;
        case 4 => localityState := localityState | ACTIVE_LOCALITY_4;
        case _ =>
      }
      localityState := localityState | REG_VALID_STATUS;
      localityState := localityState | LOCALITY_ASSIGNED;
    }

    // All registers but the two that describe the locality.
    method CleanRegisters(page: Page) returns (next: Page)
      requires Consistent() && activeLocality < NUM_LOCALITIES
      ensures var address := BufferAddress(crbAddress, activeLocality);
              next == Page(page.localityState, 0, page.localityStatus, interfaceIdDefault, 0, 0,
                           if currentState == Idle then TPM_IDLE else 0, 0, 0, 0, 0,
                           CRB_DATA_BUFFER_SIZE, address % 0x1_0000_0000, address / 0x1_0000_0000,
                           CRB_DATA_BUFFER_SIZE, address, page.data)
    {
      next := ClearRegisters(page);
      if currentState == Idle {
        next := next.(controlStatus := TPM_IDLE);
      } else {
        next := next.(controlStatus := 0);
      }
      next := PointAtBuffer(next, activeLocality);
    }

    method CleanInternalCrb()
      requires Consistent()
      modifies crb
      ensures Contents() == Clean(old(Contents()))
    {
      if activeLocality == NO_ACTIVE_LOCALITY {
        return;
      }
      var page := crb[activeLocality];
      var marked := MarkActive(page.localityState);
      page := page.(localityState := marked);
      page := page.(localityStatus := page.localityStatus | GRANTED);
      page := CleanRegisters(page);
      crb[activeLocality] := page;
    }

    // The device calls: the answer comes from the environment, the call is logged.

    method SstCmdReady(reply: Reply) returns (status: ErrorCode)
      modifies this`log
      ensures status == reply.status && log == old(log) + [CmdReady(activeLocality, status == Ok)]
    {
      status := reply.status;
      log := log + [CmdReady(activeLocality, status == Ok)];
    }

    method SstGoIdle(reply: Reply) returns (status: ErrorCode)
      modifies this`log
      ensures status == reply.status && log == old(log) + [GoIdle(activeLocality, status == Ok)]
    {
      status := reply.status;
      log := log + [GoIdle(activeLocality, status == Ok)];
    }

    // A start writes the response over the active page's buffer only when it succeeds.
    method SstStart(reply: Reply) returns (status: ErrorCode)
      requires Consistent() && activeLocality < NUM_LOCALITIES
      modifies this`log, crb
      ensures status == reply.status && log == old(log) + [Execute(activeLocality, status == Ok)]
      ensures crb[..] == if status == Ok
                         then old(crb[..])[activeLocality := old(crb[activeLocality]).(data := reply.data)]
                         else old(crb[..])
    {
      status := reply.status;
      log := log + [Execute(activeLocality, status == Ok)];
      if status == Ok {
        crb[activeLocality] := crb[activeLocality].(data := reply.data);
      }
    }

    method ClearBuffer()
      requires Consistent() && activeLocality < NUM_LOCALITIES
      modifies crb
      ensures crb[..] == old(crb[..])[activeLocality := old(crb[activeLocality]).(data := Zeros(CRB_DATA_BUFFER_SIZE))]
    {
      crb[activeLocality] := crb[activeLocality].(data := Zeros(CRB_DATA_BUFFER_SIZE));
    }

    // Each state's branch of the command handler; Denied unless a call says otherwise.

    method CommandFromReady(page: Page, reply: Reply) returns (status: ErrorCode)
      requires Consistent() && activeLocality < NUM_LOCALITIES && currentState == Ready
      requires page == crb[activeLocality]
      modifies this`log, this`currentState, crb
      ensures var call := Decide(page.controlRequest, page.controlStart, Ready, idleBypass);
              && Contents() == Called(old(Contents()), call, reply)
              && status == if call == NoCall then Denied else reply.status
    {
      status := Denied;
      if page.controlRequest & GO_IDLE != 0 {
        status := SstGoIdle(reply);
        if status == Ok {
          currentState := Idle;
        }
      } else if page.controlRequest & COMMAND_READY != 0 {
        status := SstCmdReady(reply);
      } else if page.controlStart & START != 0 {
        status := SstStart(reply);
        if status == Ok {
          currentState := Complete;
        }
      }
    }

    method CommandFromComplete(page: Page, reply: Reply) returns (status: ErrorCode)
      requires Consistent() && activeLocality < NUM_LOCALITIES && currentState == Complete
      requires page == crb[activeLocality]
      modifies this`log, this`currentState, crb
      ensures var call := Decide(page.controlRequest, page.controlStart, Complete, idleBypass);
              && Contents() == Called(old(Contents()), call, reply)
              && status == if call == NoCall then Denied else reply.status
    {
      status := Denied;
      if page.controlRequest & GO_IDLE != 0 {
        status := SstGoIdle(reply);
        if status == Ok {
          currentState := Idle;
          ClearBuffer();
        }
      } else if page.controlRequest & COMMAND_READY != 0 {
        if idleBypass {
          status := SstCmdReady(reply);
          if status == Ok {
            currentState := Ready;
            ClearBuffer();
          }
        }
      } else if page.controlStart & START != 0 {
        if idleBypass {
          status := SstStart(reply);
        }
      }
    }

    method HandleCommandRequest(reply: Reply) returns (answer: TpmStatus)
      requires Consistent() && activeLocality < NUM_LOCALITIES
      modifies this`log, this`currentState, crb
      ensures (Contents(), answer) == HandleCommand(old(Contents()), reply)
    {
      var page := crb[activeLocality];
      if page.controlRequest == 0 && page.controlStart == 0 {
        return InvCrbCtrlData;
      }
      var status := Denied;
      match currentState {
        case Idle =>
          if page.controlRequest & COMMAND_READY != 0 {
            status := SstCmdReady(reply);
            if status == Ok {
              currentState := Ready;
            }
          }
        case Ready => status := CommandFromReady(page, reply);
        case Complete => status := CommandFromComplete(page, reply);
      }
      return ConvertError(status);
    }

    method HandleLocality(locality: nat, reply: Reply) returns (answer: TpmStatus)
      requires Consistent() && locality < NUM_LOCALITIES
      modifies this`log, this`activeLocality, crb
      ensures (Contents(), answer) == HandleLocalityRequest(old(Contents()), locality, reply)
    {
      var control := crb[locality].localityControl;
      var newActive := NO_ACTIVE_LOCALITY;
      if control & RELINQUISH != 0 {
        if locality != activeLocality {
          return TpmDenied;
        }
        log := log + [LocalityRelinquish(locality, reply.status == Ok)];
      } else if control & REQUEST_ACCESS != 0 {
        if activeLocality != NO_ACTIVE_LOCALITY && activeLocality != locality {
          return TpmDenied;
        }
        log := log + [LocalityRequest(locality, reply.status == Ok)];
        newActive := locality;
      } else {
        return InvCrbCtrlData;
      }
      if reply.status == Ok {
        InitInternalCrb(locality);
        activeLocality := newActive;
      }
      return ConvertError(reply.status);
    }

    method HandleStart(req: Request, reply: Reply) returns (answer: TpmStatus)
      requires Consistent()
      modifies this, crb
      ensures (Contents(), answer) == StartHandler(old(Contents()), req, reply)
    {
      var qualifier := req.functionId % 0x1_0000;
      var locality := req.locality % 0x100;
      if locality >= NUM_LOCALITIES {
        answer := InvArg;
      } else if localityStates[locality] == Closed {
        answer := TpmDenied;
      } else if qualifier == QUALIFIER_COMMAND {
        if locality == activeLocality {
          answer := HandleCommandRequest(reply);
        } else {
          answer := InvArg;
        }
      } else if qualifier == QUALIFIER_LOCALITY {
        answer := HandleLocality(locality, reply);
      } else {
        answer := InvArg;
      }
      CleanInternalCrb();
    }

    method HandleManageLocality(req: Request) returns (answer: TpmStatus)
      requires Consistent()
      modifies this`log, localityStates
      ensures (Contents(), answer) == ManageLocality(old(Contents()), req)
    {
      var operation := req.functionId % 0x1_0000;
      var locality := req.locality % 0x100;
      if locality >= NUM_LOCALITIES {
        return InvArg;
      }
      if operation == LOCALITY_OPEN {
        localityStates[locality] := Open;
        log := log + [Opened(locality)];
        return TpmOk;
      } else if operation == LOCALITY_CLOSE {
        localityStates[locality] := Closed;
        log := log + [ClosedOff(locality)];
        return TpmOk;
      }
      return InvArg;
    }

    method ResetRuntimeState()
      modifies this`currentState, this`activeLocality, this`notificationRegistered
      ensures currentState == Idle && activeLocality == NO_ACTIVE_LOCALITY && !notificationRegistered
    {
      currentState := Idle;
      activeLocality := NO_ACTIVE_LOCALITY;
      notificationRegistered := false;
    }

    method InitService(bypass: bool)
      requires Consistent()
      modifies this, crb, localityStates
      ensures Contents() == Initialise(old(Contents()), bypass)
    {
      interfaceIdDefault := 0;
      interfaceIdDefault := SetInterfaceType(interfaceIdDefault, 1);
      interfaceIdDefault := SetInterfaceVersion(interfaceIdDefault, 1);
      interfaceIdDefault := SetCapLocality(interfaceIdDefault, 1);
      interfaceIdDefault := SetCapCrb(interfaceIdDefault, 1);
      for locality := 0 to NUM_LOCALITIES
        invariant Consistent() && interfaceIdDefault == DefaultInterfaceId() && log == old(log)
        invariant unchanged(localityStates)
        invariant forall l | 0 <= l < locality :: crb[l] == InitPage(crbAddress, l, interfaceIdDefault)
      {
        ghost var before := crb[..];
        InitInternalCrb(locality);
        assert forall l | 0 <= l < locality :: crb[..][l] == before[l];
        assert crb[..][locality] == crb[locality];
      }
      assert crb[..] == InitPages(crbAddress, interfaceIdDefault);
      localityStates[0], localityStates[1] := Open, Open;
      localityStates[2], localityStates[3], localityStates[4] := Closed, Closed, Closed;
      assert localityStates[..] == [Open, Open, Closed, Closed, Closed];
      idleBypass := bypass;
      log := log + [Initialised(bypass)];
      ResetRuntimeState();
    }

    method DeinitService()
      requires Consistent()
      modifies this, localityStates
      ensures Contents() == Deinitialise(old(Contents()))
    {
      ResetRuntimeState();
      forall l | 0 <= l < NUM_LOCALITIES {
        localityStates[l] := Closed;
      }
      assert localityStates[..] == [Closed, Closed, Closed, Closed, Closed];
      log := log + [Deinitialised];
    }

    /** One direct request. */
    method FfaMsgSendDirectReq2(req: Request, reply: Reply) returns (answer: TpmStatus, payload: U64)
      requires Consistent()
      modifies this, crb, localityStates
      ensures Consistent()
      ensures (Contents(), answer, payload) == Dispatch(old(Contents()), req, reply)
    {
      payload := 0;
      if req.opcode == GET_INTERFACE_VERSION {
        answer, payload := OkResultsReturned, INTERFACE_VERSION;
      } else if req.opcode == GET_FEATURE_INFO {
        if req.functionId == REGISTER_FOR_NOTIFICATION {
          answer, payload := OkResultsReturned, NOTIFICATIONS_SUPPORTED;
        } else {
          answer := NotSup;
        }
      } else if req.opcode == START_FUNCTION {
        answer := HandleStart(req, reply);
      } else if req.opcode == REGISTER_FOR_NOTIFICATION {
        answer := if notificationRegistered then Already else TpmOk;
        notificationRegistered := true;
      } else if req.opcode == UNREGISTER_FROM_NOTIFICATION {
        answer := if notificationRegistered then TpmOk else TpmDenied;
        notificationRegistered := false;
      } else if req.opcode == FINISH_NOTIFIED {
        answer := if notificationRegistered then TpmOk else TpmDenied;
      } else if req.opcode == MANAGE_LOCALITY {
        if req.sourceId / 0x100 != 0xFF {
          answer := TpmDenied;
        } else {
          answer := HandleManageLocality(req);
        }
      } else {
        answer := NoFunc;
      }
    }
  }
}
