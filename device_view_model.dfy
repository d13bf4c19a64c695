/**
 * `DeviceViewModel`: the texts the device screen derives from the connected
 * Flipper, and the alert flags raised when the connection status changes.
 */
module DeviceView {
  import opened Wrappers
  import opened Text

  /** `DeviceStatus`: the cases the view model tells apart, and `Other` for the rest. */
  datatype DeviceStatus = NoDevice | Connected | Disconnected | Synchronized | PairingIssue | UnsupportedDevice | Other

  datatype DeviceInformation = DeviceInformation(softwareRevision: string, protobufRevision: string)

  datatype StorageSpace = StorageSpace(free: int, total: int)

  datatype StorageInfo = StorageInfo(internal: Option<StorageSpace>, external: Option<StorageSpace>)

  /** What the view model reads of a `Flipper`. */
  datatype Flipper = Flipper(isUnsupported: bool, information: Option<DeviceInformation>, storage: Option<StorageInfo>)

  /** `StorageSpace.description`, whose byte-count formatting is not part of this model. */
  type Describe = StorageSpace -> string

  /**
   * `flipper?.isUnsupported == false`: a Flipper is there and it is
   * supported. Without a Flipper the optional chain is `nil`, which is not
   * `false`, so the guard fails.
   */
  predicate Supported(flipper: Option<Flipper>)
    ensures flipper.None? ==> !Supported(flipper)
  {
    flipper.Some? && !flipper.value.isUnsupported
  }

  /** `protobufVersion`: nothing unless a supported Flipper is there; then its protobuf revision, or "-" without information. */
  function ProtobufVersion(flipper: Option<Flipper>): (r: Option<string>)
    ensures r.Some? <==> flipper.Some? && !flipper.value.isUnsupported
    ensures r.Some? && flipper.value.information.None? ==> r.value == "-"
    ensures r.Some? && flipper.value.information.Some? ==> r.value == flipper.value.information.value.protobufRevision
  {
    if !Supported(flipper) then None
    else match flipper.value.information
      case Some(info) => Some(info.protobufRevision)
      case None => Some("-")
  }

  /** The space-separated tokens of the software revision, empty ones omitted. */
  function RevisionTokens(info: DeviceInformation): (tokens: seq<string>)
    ensures forall t :: t in tokens ==> t != [] && ' ' !in t
  {
    Split(info.softwareRevision, ' ')
  }

  /** `firmwareVersion`: the second token of the software revision, "" without one or without information. */
  function FirmwareVersion(flipper: Option<Flipper>): (r: string)
    ensures flipper.None? || flipper.value.information.None? ==> r == ""
    ensures flipper.Some? && flipper.value.information.Some? ==>
      var tokens := Split(flipper.value.information.value.softwareRevision, ' ');
      r == if |tokens| >= 2 then tokens[1] else ""
    ensures ' ' !in r
  {
    if flipper.None? || flipper.value.information.None? then ""
    else
      var tokens := RevisionTokens(flipper.value.information.value);
      if |tokens| >= 2 then
        assert tokens[1] in tokens;
        tokens[1]
      else ""
  }

  /** `firmwareBuild`: the last token of the software revision, "" without one or without information. */
  function FirmwareBuild(flipper: Option<Flipper>): (r: string)
    ensures flipper.None? || flipper.value.information.None? ==> r == ""
    ensures flipper.Some? && flipper.value.information.Some? ==>
      var tokens := Split(flipper.value.information.value.softwareRevision, ' ');
      r == if tokens == [] then "" else tokens[|tokens| - 1]
    ensures ' ' !in r
  {
    if flipper.None? || flipper.value.information.None? then ""
    else
      var tokens := RevisionTokens(flipper.value.information.value);
      if tokens == [] then ""
      else
        assert tokens[|tokens| - 1] in tokens;
        tokens[|tokens| - 1]
  }

  function WithRevision(revision: string): Option<Flipper>
  {
    Some(Flipper(false, Some(DeviceInformation(revision, "")), None))
  }

  /** A revision made of three words gives the second as the version and the third as the build. */
  lemma FirmwareOfThreeWords(first: string, version: string, build: string)
    requires first != [] && version != [] && build != []
    requires ' ' !in first && ' ' !in version && ' ' !in build
    ensures FirmwareVersion(WithRevision(first + " " + version + " " + build)) == version
    ensures FirmwareBuild(WithRevision(first + " " + version + " " + build)) == build
  {
    var tail := version + " " + build;
    assert first + " " + version + " " + build == first + [' '] + tail;
    SplitWord(first, ' ', tail);
    assert tail == version + [' '] + build;
    SplitWord(version, ' ', build);
    SplitSingle(build, ' ');
  }

  /** A revision of a single word: that word is the build and the version is empty. */
  lemma FirmwareOfOneWord(word: string)
    requires word != [] && ' ' !in word
    ensures FirmwareVersion(WithRevision(word)) == ""
    ensures FirmwareBuild(WithRevision(word)) == word
  {
    SplitSingle(word, ' ');
  }

  /** `internalSpace`: nothing unless a supported Flipper is there; "" when it reports no internal storage. */
  function InternalSpace(flipper: Option<Flipper>, describe: Describe): (r: Option<string>)
    ensures r.Some? <==> flipper.Some? && !flipper.value.isUnsupported
    ensures r.Some? && (flipper.value.storage.None? || flipper.value.storage.value.internal.None?) ==> r.value == ""
    ensures r.Some? && flipper.value.storage.Some? && flipper.value.storage.value.internal.Some? ==>
      r.value == describe(flipper.value.storage.value.internal.value)
  {
    if !Supported(flipper) then None
    else if flipper.value.storage.Some? && flipper.value.storage.value.internal.Some? then
      Some(describe(flipper.value.storage.value.internal.value))
    else Some("")
  }

  /** `externalSpace`: nothing unless a supported Flipper is there; "" when it reports no external storage. */
  function ExternalSpace(flipper: Option<Flipper>, describe: Describe): (r: Option<string>)
    ensures r.Some? <==> flipper.Some? && !flipper.value.isUnsupported
    ensures r.Some? && (flipper.value.storage.None? || flipper.value.storage.value.external.None?) ==> r.value == ""
    ensures r.Some? && flipper.value.storage.Some? && flipper.value.storage.value.external.Some? ==>
      r.value == describe(flipper.value.storage.value.external.value)
  {
    if !Supported(flipper) then None
    else if flipper.value.storage.Some? && flipper.value.storage.value.external.Some? then
      Some(describe(flipper.value.storage.value.external.value))
    else Some("")
  }

  class DeviceViewModel {
    var flipper: Option<Flipper>
    var status: DeviceStatus
    var showPairingIssueAlert: bool
    var showUnsupportedVersionAlert: bool

    /**
     * `init()`: the Flipper and the status arrive later, on the main queue
     * (`SetFlipper`, `SetStatus`), so both start from their defaults.
     */
    constructor ()
      ensures flipper == None && status == NoDevice
      ensures !showPairingIssueAlert && !showUnsupportedVersionAlert
    {
      flipper := None;
      status := NoDevice;
      showPairingIssueAlert := false;
      showUnsupportedVersionAlert := false;
    }

    /** A value of `appState.$flipper` delivered on the main queue. */
    method SetFlipper(newFlipper: Option<Flipper>)
      modifies this`flipper
      ensures flipper == newFlipper
    {
      flipper := newFlipper;
    }

    /**
     * Setting `status` (its `didSet`): a pairing issue raises the pairing
     * alert, an unsupported device raises the version alert, any other
     * status leaves both flags as they were. No flag is ever lowered here.
     */
    method SetStatus(newStatus: DeviceStatus)
      modifies this`status, this`showPairingIssueAlert, this`showUnsupportedVersionAlert
      ensures status == newStatus
      ensures showPairingIssueAlert == (old(showPairingIssueAlert) || newStatus == PairingIssue)
      ensures showUnsupportedVersionAlert == (old(showUnsupportedVersionAlert) || newStatus == UnsupportedDevice)
    {
      status := newStatus;
      match status {
        case PairingIssue => showPairingIssueAlert := true;
        case UnsupportedDevice => showUnsupportedVersionAlert := true;
        case _ =>
      }
    }
  }
}
