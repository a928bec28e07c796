/**
  The ONVIF vocabulary the proxy dispatches on: the operation named by the
  first child of a SOAP Body, and the qualified tags its transformers look for.
 */
module Onvif {
  import opened Wrappers

  /** The operations the transformers tell apart; every other name, and a
      request with no operation at all, is Unknown. */
  datatype Operation =
    | GetCapabilities
    | GetProfiles
    | GetConfiguration
    | GetConfigurationOptions
    | GetStatus
    | GetPresets
    | GetServiceCapabilities
    | RelativeMove
    | GoToPreset
    | ContinuousMove
    | AbsoluteMove
    | Stop
    | Unknown(name: Option<string>)

  const KnownNames: set<string> := {
    "GetCapabilities", "GetProfiles", "GetConfiguration", "GetConfigurationOptions",
    "GetStatus", "GetPresets", "GetServiceCapabilities", "RelativeMove",
    "GoToPreset", "ContinuousMove", "AbsoluteMove", "Stop"
  }

  /** The operation name as the transformers compare it (None: no operation found). */
  function NameOf(op: Operation): Option<string>
  {
    match op
    case GetCapabilities => Some("GetCapabilities")
    case GetProfiles => Some("GetProfiles")
    case GetConfiguration => Some("GetConfiguration")
    case GetConfigurationOptions => Some("GetConfigurationOptions")
    case GetStatus => Some("GetStatus")
    case GetPresets => Some("GetPresets")
    case GetServiceCapabilities => Some("GetServiceCapabilities")
    case RelativeMove => Some("RelativeMove")
    case GoToPreset => Some("GoToPreset")
    case ContinuousMove => Some("ContinuousMove")
    case AbsoluteMove => Some("AbsoluteMove")
    case Stop => Some("Stop")
    case Unknown(name) => name
  }

  /** An Unknown operation never carries a name that one of the branches compares against. */
  predicate WellFormed(op: Operation)
  {
    op.Unknown? ==> op.name.None? || op.name.value !in KnownNames
  }

  /** The chain of string comparisons both transformers start with. */
  function OperationNamed(name: Option<string>): (op: Operation)
    ensures WellFormed(op) && NameOf(op) == name
    ensures op.Unknown? <==> name.None? || name.value !in KnownNames
  {
    match name
    case None => Unknown(None)
    case Some(n) =>
      if n == "GetCapabilities" then GetCapabilities
      else if n == "GetProfiles" then GetProfiles
      else if n == "GetConfiguration" then GetConfiguration
      else if n == "GetConfigurationOptions" then GetConfigurationOptions
      else if n == "GetStatus" then GetStatus
      else if n == "GetPresets" then GetPresets
      else if n == "GetServiceCapabilities" then GetServiceCapabilities
      else if n == "RelativeMove" then RelativeMove
      else if n == "GoToPreset" then GoToPreset
      else if n == "ContinuousMove" then ContinuousMove
      else if n == "AbsoluteMove" then AbsoluteMove
      else if n == "Stop" then Stop
      else Unknown(name)
  }

  /** Dispatch loses nothing: naming an operation and reading the name back gives it again. */
  lemma OperationNamedRoundTrip(op: Operation)
    requires WellFormed(op)
    ensures OperationNamed(NameOf(op)) == op
  {
  }

  /** The commands the request side treats as starting a motion without rewriting. */
  predicate StartsMotion(op: Operation)
  {
    op.GoToPreset? || op.ContinuousMove? || op.AbsoluteMove?
  }

  // Qualified tags, in lxml's Clark notation.
  const TT_PAN_TILT := "{http://www.onvif.org/ver10/schema}PanTilt"
  const TT_SPACES := "{http://www.onvif.org/ver10/schema}Spaces"
  const TT_RELATIVE_PT_SPACE := "{http://www.onvif.org/ver10/schema}RelativePanTiltTranslationSpace"
  const TT_URI := "{http://www.onvif.org/ver10/schema}URI"
  const TT_XRANGE := "{http://www.onvif.org/ver10/schema}XRange"
  const TT_YRANGE := "{http://www.onvif.org/ver10/schema}YRange"
  const TT_MIN := "{http://www.onvif.org/ver10/schema}Min"
  const TT_MAX := "{http://www.onvif.org/ver10/schema}Max"
  const TT_MOVE_STATUS := "{http://www.onvif.org/ver10/schema}MoveStatus"
  const TT_POSITION := "{http://www.onvif.org/ver10/schema}Position"
  const TPTZ_PTZ_STATUS := "{http://www.onvif.org/ver20/ptz/wsdl}PTZStatus"
  const TPTZ_CAPABILITIES := "{http://www.onvif.org/ver20/ptz/wsdl}Capabilities"
  const TPTZ_RELATIVE_MOVE_RESPONSE := "{http://www.onvif.org/ver20/ptz/wsdl}RelativeMoveResponse"
  const SOAP_FAULT := "{http://www.w3.org/2003/05/soap-envelope}Fault"
  const SOAP_BODY := "{http://www.w3.org/2003/05/soap-envelope}Body"

  /** The marker the check looks for in a space's URI. */
  const FOV_MARKER := "TranslationSpaceFov"
  const PAN_TILT_SPACES := "http://www.onvif.org/ver10/tptz/PanTiltSpaces/"
  /** The URI of the field-of-view translation space the proxy advertises. */
  const FOV_SPACE_URI := PAN_TILT_SPACES + FOV_MARKER
}
