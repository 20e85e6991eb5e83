/** The OTA automations: the guard chain of `SwitchPartitionAndRebootAction::play`, and
    the filter each OTA trigger applies to the state callbacks of its component. */
module Automation {
  import opened Base
  import opened EspIdf

  // ---------------------------------------------------------------- switch partition and reboot

  /** The device after the action, and whether it called `esp_restart`. */
  datatype ActionOutcome = ActionOutcome(device: Device, restarted: bool)

  /** `SwitchPartitionAndRebootAction::play`. On an ESP32 build: give up on an empty label,
      look the label up among app partitions of any subtype, give up if it is missing, set
      it as the boot partition, give up if that fails, and only then restart. Other builds
      only log. `setBootErr` is what `esp_ota_set_boot_partition` reports. */
  function SwitchPartitionAndReboot(isEsp32: bool, name: seq<char>, table: seq<Partition>,
                                    dev: Device, setBootErr: EspErr): (o: ActionOutcome)
    ensures o.restarted <==>
              && isEsp32
              && name != []
              && FindFirst(table, App, AnySubtype, Some(CString(name))).Some?
              && setBootErr == EspOk
    ensures o.restarted ==> o.device == dev.(boot := FindFirst(table, App, AnySubtype, Some(CString(name))))
    ensures !o.restarted ==> o.device == dev
  {
    if !isEsp32 then ActionOutcome(dev, false)
    else if name == [] then ActionOutcome(dev, false)
    else
      var partition := FindFirst(table, App, AnySubtype, Some(CString(name)));
      if partition.None? then ActionOutcome(dev, false)
      else
        var sw := SetBootPartition(dev, partition, setBootErr);
        if sw.err != EspOk then ActionOutcome(dev, false)
        else ActionOutcome(sw.device, true)
  }

  /** Whenever the action restarts, the device is about to boot an app partition of the
      table that carries exactly the requested label. */
  lemma SwitchRestartsIntoLabelledApp(isEsp32: bool, name: seq<char>, table: seq<Partition>,
                                      dev: Device, setBootErr: EspErr)
    requires '\0' !in name
    ensures var o := SwitchPartitionAndReboot(isEsp32, name, table, dev, setBootErr);
      o.restarted ==>
        && o.device.boot.Some?
        && o.device.boot.value in table
        && o.device.boot.value.kind == App
        && o.device.boot.value.name == name
        && o.device.flash == dev.flash
  {
    CStringOfPlain(name);
  }

  // ---------------------------------------------------------------- triggers

  /** The OTA states a state callback reports. */
  datatype OtaState = OtaCompleted | OtaStarted | OtaInProgress | OtaAbort | OtaError

  /** The trigger classes: one for every state change, one per particular state. */
  datatype TriggerKind =
    | StateChangeTrigger
    | StartTrigger
    | ProgressTrigger
    | EndTrigger
    | AbortTrigger
    | ErrorTrigger

  /** What a trigger hands its automation when it fires; the progress percentage is a
      float and is not carried. */
  datatype Firing = Silent | FiresWithState(state: OtaState) | Fires | FiresWithProgress | FiresWithError(code: byte)

  /** The state a state-specific trigger listens for. */
  function Watched(kind: TriggerKind): OtaState
    requires kind != StateChangeTrigger
  {
    match kind
    case StartTrigger => OtaStarted
    case ProgressTrigger => OtaInProgress
    case EndTrigger => OtaCompleted
    case AbortTrigger => OtaAbort
    case ErrorTrigger => OtaError
  }

  /** The state-specific trigger that listens for `state`. */
  function TriggerFor(state: OtaState): (kind: TriggerKind)
    ensures kind != StateChangeTrigger
  {
    match state
    case OtaStarted => StartTrigger
    case OtaInProgress => ProgressTrigger
    case OtaCompleted => EndTrigger
    case OtaAbort => AbortTrigger
    case OtaError => ErrorTrigger
  }

  /** Each state has exactly one trigger of its own, and each such trigger one state. */
  lemma WatchedInvertsTriggerFor(state: OtaState, kind: TriggerKind)
    requires kind != StateChangeTrigger
    ensures Watched(TriggerFor(state)) == state
    ensures TriggerFor(Watched(kind)) == kind
  {
  }

  /** One state callback, with its error byte and whether the parent component is marked
      failed, delivered to one trigger. */
  function Deliver(kind: TriggerKind, state: OtaState, error: byte, parentFailed: bool): (f: Firing)
    ensures f != Silent <==> !parentFailed && (kind == StateChangeTrigger || state == Watched(kind))
    ensures kind == StateChangeTrigger && f != Silent ==> f == FiresWithState(state)
    ensures kind == ErrorTrigger && f != Silent ==> f == FiresWithError(error)
    ensures kind == ProgressTrigger && f != Silent ==> f == FiresWithProgress
    ensures kind in {StartTrigger, EndTrigger, AbortTrigger} && f != Silent ==> f == Fires
  {
    if parentFailed then Silent
    else
      match kind
      case StateChangeTrigger => FiresWithState(state)
      case StartTrigger => if state == OtaStarted then Fires else Silent
      case ProgressTrigger => if state == OtaInProgress then FiresWithProgress else Silent
      case EndTrigger => if state == OtaCompleted then Fires else Silent
      case AbortTrigger => if state == OtaAbort then Fires else Silent
      case ErrorTrigger => if state == OtaError then FiresWithError(error) else Silent
  }

  /** For any callback of a healthy component exactly one state-specific trigger fires,
      the one for its state, and the state-change trigger fires too; for a failed
      component none fires. */
  lemma ExactlyOneSpecificTriggerFires(state: OtaState, error: byte, parentFailed: bool)
    ensures forall kind :: kind != StateChangeTrigger ==>
              (Deliver(kind, state, error, parentFailed) != Silent <==> !parentFailed && kind == TriggerFor(state))
    ensures Deliver(StateChangeTrigger, state, error, parentFailed) != Silent <==> !parentFailed
  {
  }
}
