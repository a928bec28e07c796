# ONVIF PTZ proxy: request, response and motion-status transformers

This project models the part of an ONVIF proxy for a pan/tilt camera that
changes what passes through it. The proxy sits between a client (a video
management system) and the camera.

- **Requests.** A `RelativeMove` has the `x`/`y` attributes of its first
  `tt:PanTilt` element multiplied by the camera's multipliers and clamped to
  [-1, 1]. GoToPreset, ContinuousMove and AbsoluteMove set the camera's
  motion status to `MOVING` and Stop sets it to `IDLE`. A RelativeMove sets
  `MOVING` only when it rewrites the coordinates: one whose first PanTilt is
  missing, or lacks `x` or `y`, leaves the status as it is.
- **Motion status.** A move command sets `MOVING` and starts a move timer; a
  newer move cancels the older timer. `Stop` sets `IDLE` and cancels the
  timer. A timer that expires sets `IDLE`.
- **Responses.** Camera service URLs are rewritten to the proxy's. Four
  operations have their parsed reply adjusted:
  - `GetConfigurationOptions` gains a field-of-view relative translation space.
  - `GetStatus` reports the proxy's own motion status, and forces `IDLE` when
    the camera reports the same position twice.
  - `GetServiceCapabilities` advertises `MoveStatus` and `StatusPosition`.
  - A `RelativeMove` fault becomes an empty `RelativeMoveResponse`.
- **Content-Length.** `fix_header_size` rewrites the URLs and then sets every
  `Content-Length` header to the UTF-8 length of the body. It is modelled as
  the source defines it, but the request handler (onvif_proxy.py:97-102) calls
  only `rewrite_host_urls` and `modify_onvif_response`, so the proxy never
  runs it.

Modules:

- `Wrappers`: Option and Result. Result's error case stands for a Python
  exception (`ValueError`, `TypeError`).
- `Onvif`: the operation names and the qualified tags.
- `Xml`: an XML tree as a value.
  - A node is reached by a path of child indices.
  - An in-place lxml edit is `Replace` at a path.
  - `.//T` is `Find`, the first strict descendant in document order.
  - `.//A/B` is `FindPair`.
  - A bare child `find` is `FirstChild`.
- `Text`: the string operations used.
  - `str.replace`, `str.split(sep, 1)` and decimal printing.
  - UTF-8 length.
  - The substitution `re.sub(r'Content-Length: [0-9]+', …)`.
- `Helpers`: the camera record as a class, whose motion entries are changed
  by `SetMoving`, `SetIdle` and the expiry of a timer.
- `RequestModifier`: `modify_onvif_request`.
- `ResponseModifier`: `modify_onvif_response`, `rewrite_host_urls` and
  `fix_header_size`.

Python floating point (`float()`, the `:g` format, float multiplication) is a
parameter `Floats` of the request rewrite. The properties that depend on how
floats behave take that behaviour as an explicit predicate (`FormatIsStable`,
`UnitIsNeutral`).

## Model

| member | source | states |
|---|---|---|
| Onvif.OperationNamed | response_modifiers.py:23-167 | The chain of operation-name comparisons maps a name to its operation. A name outside the twelve compared ones, or no name at all, gives Unknown carrying that name. |
| Onvif.OperationNamedRoundTrip | request_modifiers.py:15-66 | Dispatching on the name of an operation gives that operation back, so no two branches share a name. |
| Helpers.CameraConfig.constructor | helpers.py:17-19 | A record as loaded has no status, no move timer and no stored position, and it satisfies the motion invariant. |
| Helpers.CameraConfig.SetMoving | helpers.py:11-38 | Sets MOVING. Cancels and drops a stored timer, then stores and starts a new one whose delay is 'move_timeout', or 10 when that is absent. Afterwards only the new timer is due. |
| Helpers.CameraConfig.SetIdle | helpers.py:41-52 | Sets IDLE and cancels and drops a stored timer. With no timer stored, the set of due timers is unchanged. |
| Helpers.CameraConfig.Expire | helpers.py:30-37 | A timer reaching its deadline runs set_idle only if it is the stored, uncancelled one; any other timer changes nothing. |
| Helpers.TransitionsKeepConsistent | helpers.py:11-52 | set_moving, set_idle and a timer expiry each keep the invariant: status is MOVING exactly while a timer is stored, and that timer is the only one still due. |
| Helpers.OnlyStoredTimerFires | helpers.py:19-25 | An expiry changes the record if and only if the expiring timer is the stored one. |
| Helpers.MoveThenExpiry | helpers.py:30-37 | A move followed by the expiry of its own timer ends IDLE with no timer due. |
| Helpers.SecondMoveSupersedesFirst | helpers.py:17-25 | After two moves only the second timer is due: the first timer's expiry changes nothing, and the second one's sets IDLE. |
| Helpers.NoExpiryAfterIdle | helpers.py:45-52 | After set_idle no timer expiry has any effect. |
| Helpers.IdleWithoutTimer | helpers.py:45-52 | With no timer stored, set_idle only sets the status. |
| RequestModifier.Clamp | request_modifiers.py:39-40 | The result lies in [-1, 1]. A value already in range is kept; values above 1 become 1 and values below -1 become -1. |
| RequestModifier.ClampProperties | request_modifiers.py:39-40 | Clamping is idempotent and monotone. |
| RequestModifier.PanTiltOf | request_modifiers.py:30 | The node found is a PanTilt descendant, and no PanTilt comes before it in document order. None means the document has no PanTilt descendant. |
| RequestModifier.RescalePanTilt | request_modifiers.py:30-42 | Nothing is rewritten exactly when there is no PanTilt, or it lacks 'x' or 'y'. float() raising ValueError happens exactly when both are present and one of them does not parse. |
| RequestModifier.RescaleEdits | request_modifiers.py:35-42 | A rewrite sets 'x' to format(clamp(x * x_multiplier)) and 'y' likewise, at the first PanTilt. Every other attribute of that node, and every other node, is untouched. |
| RequestModifier.RescaledInRange | request_modifiers.py:37-42 | When the printed numbers read back as printed, the coordinates sent to the camera read back as numbers in [-1, 1]. |
| RequestModifier.RescaleIdempotentAtUnit | request_modifiers.py:12-13 | With the default multipliers of 1.0, rewriting an already rewritten request writes the same document again. |
| RequestModifier.Request | request_modifiers.py:10-66 | Only RelativeMove changes the document, and only RelativeMove can raise. A RelativeMove forwards what the PanTilt rewrite gives: the rewritten document, the document as it came when there is nothing to rewrite, or the ValueError of float(). The status is set to MOVING by GoToPreset, ContinuousMove, AbsoluteMove, and by a RelativeMove whose coordinates were rewritten. It is set to IDLE by Stop and by nothing else. |
| RequestModifier.RequestKeepsConsistent | request_modifiers.py:45-62 | Whatever the request, the motion invariant of the record is kept. |
| RequestModifier.RelativeMoveExample | request_modifiers.py:30-45 | With multipliers 0.8, a Translation PanTilt with x="0.5" y="-1" is sent, with the floats parameter's format, as x=0.4 and y=-0.8. A Speed PanTilt after it is untouched, and the request's effect on the record is set_moving. |
| RequestModifier.ModifyRequest | request_modifiers.py:10-66 | Returns the rewritten request or the exception. It reads the multipliers with their 1.0 defaults, and the record's motion entries end as set_moving or set_idle leave them. |
| ResponseModifier.FovScan | response_modifiers.py:44-48 | The only exception the scan raises is TypeError, from `in` on the missing text of a relative space's URI. |
| ResponseModifier.FovScanPassesAll | response_modifiers.py:44-48 | The scan passes (no FOV space) exactly when every child passes its check. |
| ResponseModifier.FovScanFirstDecides | response_modifiers.py:44-48 | A scan that stops returns the outcome of the first relative space whose check does not pass. |
| ResponseModifier.FindFovSpace | response_modifiers.py:44-48 | The loop returns what the scan specifies. |
| ResponseModifier.AddFovSpace | response_modifiers.py:31-78 | The branch, run with its two loops, returns what ConfigurationOptions specifies. |
| ResponseModifier.LastWithTag | response_modifiers.py:70-73 | The index found holds a relative space and no later child does. None means no child is one. |
| ResponseModifier.LastRelativeSpaceIndex | response_modifiers.py:70-73 | The loop returns the index of the last relative space. |
| ResponseModifier.FovSpaceRecognised | response_modifiers.py:51-54 | The space the proxy builds is one the FOV check recognises. |
| ResponseModifier.Insert | response_modifiers.py:75-76 | `insert(k, x)` places x at index k and shifts the later children up by one. |
| ResponseModifier.ConfigurationOptions | response_modifiers.py:31-84 | Raises exactly when there is a Spaces element with a relative space among its children and the scan over those children raises; the exception is then TypeError. A reply that does not need the FOV space is returned as it is. |
| ResponseModifier.FovInserted | response_modifiers.py:50-78 | A missing FOV space is inserted right after the last relative space of the first Spaces element, and the other children keep their order. Outside that Spaces element, a node exists in the reply exactly when it existed before, with the same tag, attributes and text. |
| ResponseModifier.ScanFindsInserted | response_modifiers.py:44-76 | After the insertion, the scan finds the FOV space. |
| ResponseModifier.ConfigurationOptionsIdempotent | response_modifiers.py:43-48 | Transforming a transformed reply changes nothing more, because the FOV space is never added twice. |
| ResponseModifier.StatusText | response_modifiers.py:86 | The text is MOVING exactly when the record says MOVING, and IDLE otherwise, including when there is no status. |
| ResponseModifier.MoveStatusPath | response_modifiers.py:88-93 | The MoveStatus/PanTilt found below the first PTZStatus is a PanTilt node of the reply. |
| ResponseModifier.StatusPoll | response_modifiers.py:85-124 | Raises TypeError exactly when the MoveStatus/PanTilt has no text (read at line 98). When it has text, the position observed is the x/y of the first Position/PanTilt under the PTZStatus, if there is one; otherwise nothing is observed. The poll forces IDLE exactly when a position was observed and both stored coordinates exist and equal it. |
| ResponseModifier.PositionSearchUnaffected | response_modifiers.py:99-107 | Writing the MoveStatus text does not change which Position/PanTilt the search finds, or its attributes. |
| ResponseModifier.TwoWritesAreOne | response_modifiers.py:99-116 | Writing the status text and then IDLE gives the document that writing IDLE alone gives. |
| ResponseModifier.PollRewritesMoveStatus | response_modifiers.py:99-116 | A poll changes only the MoveStatus text. The text is IDLE when the poll forces idle and the record's status otherwise. |
| ResponseModifier.FirstPollNeverForces | response_modifiers.py:111-114 | With no stored position, the poll never forces IDLE. |
| ResponseModifier.SecondPollOfStillCameraForcesIdle | response_modifiers.py:106-122 | A poll stores the position it saw. A second poll reporting that same position forces IDLE, and its reply says IDLE. |
| ResponseModifier.MovingReportedWhilePositionChanges | response_modifiers.py:99-116 | While the record says MOVING and the position differs from the stored one, the reply says MOVING. |
| ResponseModifier.PollWithoutMoveStatus | response_modifiers.py:88-96 | Without a PTZStatus, or without a MoveStatus/PanTilt in it, the reply is returned unchanged and the record is untouched. |
| ResponseModifier.ServiceCapabilities | response_modifiers.py:129-132 | Without a Capabilities element, the reply is returned unchanged. |
| ResponseModifier.CapabilitiesAdvertised | response_modifiers.py:129-141 | The first Capabilities element gains MoveStatus="true" and StatusPosition="true" and keeps its other attributes, text and tag. Nothing else changes. |
| ResponseModifier.ServiceCapabilitiesIdempotent | response_modifiers.py:135-136 | Advertising twice is advertising once. |
| ResponseModifier.RemoveAt | response_modifiers.py:154 | Removing child k closes its place and keeps the order of the rest. |
| ResponseModifier.RelativeMoveReply | response_modifiers.py:142-157 | Without a Fault or without a Body, the reply is unchanged. `Body.remove` raises a ValueError exactly when the first Fault is not a child of the first Body. |
| ResponseModifier.FaultReplaced | response_modifiers.py:153-155 | The Fault is removed and a RelativeMoveResponse appended last, so the Body keeps its number of children. Outside the Body, a node exists in the reply exactly when it existed before, with the same tag, attributes and text. |
| ResponseModifier.FaultEnvelopeBecomesSuccess | response_modifiers.py:142-157 | An envelope whose Body holds only a Fault becomes one whose Body holds only an empty RelativeMoveResponse. |
| ResponseModifier.Response | response_modifiers.py:10-167 | Each of GetConfigurationOptions, GetStatus, GetServiceCapabilities and RelativeMove gives the result of its own branch, and every other operation returns the reply unchanged. Only GetStatus touches the record. |
| ResponseModifier.ModifyResponse | response_modifiers.py:10-167 | Returns the transformed reply or the exception. Runs set_idle when the poll forces it, and stores the observed position in 'status_x'/'status_y'. It runs the two loops of the GetConfigurationOptions branch. |
| ResponseModifier.StillCameraEndsIdle | response_modifiers.py:111-122 | Two GetStatus polls of a camera standing still bring the record to IDLE with no timer due, whatever it said before. |
| ResponseModifier.ServiceUrl | response_modifiers.py:175-176 | A service URL is never empty, so `str.replace` is never asked to replace the empty string. |
| ResponseModifier.RewriteWithoutCameraUrl | response_modifiers.py:169-178 | A reply that does not contain the camera's service URL is passed through unchanged. |
| ResponseModifier.RewriteFirstUrl | response_modifiers.py:175-177 | The leftmost camera URL becomes the proxy URL, the text before it is kept, and the rest is rewritten in turn. |
| ResponseModifier.RewriteToSameAddress | response_modifiers.py:169-178 | When the proxy's URL equals the camera's, the rewrite changes nothing. |
| ResponseModifier.FixedHeadersCarryBodyLength | response_modifiers.py:190-196 | The text splits at its first blank line into headers and body. The result is the new headers, the blank line and the unchanged body. Every Content-Length header in the new headers states the body's UTF-8 length, with no digit after it, and that length lies between the number of characters of the body and four times that. |
| ResponseModifier.FixHeaderSizeRewritesThenFixes | response_modifiers.py:180-196 | The camera URLs are rewritten first. When the rewritten text has a blank line, the result is its new headers, the blank line and its body, and every Content-Length header states the UTF-8 length of that body; without a blank line the rewritten text is returned as it is. |
| ResponseModifier.BodyLengthWritten | response_modifiers.py:190-196 | When the headers before the first blank line are a text p without a Content-Length header, then a Content-Length header with its digits, then a text q, the result keeps p, keeps the header in its place with the body's UTF-8 length as its only digits, substitutes in q in the same way, and keeps the blank line and the body. |
| ResponseModifier.NoBlankLineKept | response_modifiers.py:190-191 | Text without a blank line is returned as it is. |
| ResponseModifier.NoContentLengthKept | response_modifiers.py:195 | Headers without a Content-Length header are kept as they are. |
| Xml.FindIsFirst | request_modifiers.py:30 | No descendant before the one `.//T` finds, in document order, has that tag. None means no descendant has it. |
| Xml.FindPairIsFirst | response_modifiers.py:93-101 | `.//A/B` finds, below the first A in document order that has a B child, its first B child. None means no A below the element has a B child. |
| Xml.FindAfterReplace | response_modifiers.py:32 | Editing the found node so that it keeps its tag leaves the search finding the same node. |
| Text.ReplaceAbsent | response_modifiers.py:177 | `str.replace` with a pattern that does not occur returns the string. |
| Text.ReplaceByItself | response_modifiers.py:177 | `str.replace` of a pattern by itself returns the string. |
| Text.ReplaceLeftmost | response_modifiers.py:177 | `str.replace` replaces the leftmost occurrence and goes on after it. |
| Text.SplitOnce | response_modifiers.py:190-191 | `split(sep, 1)` cuts at the first occurrence; the two parts joined by sep give the string back. Python returns a single part (None in the model) exactly when sep does not occur. |
| Text.SplitOnceAt | response_modifiers.py:190-191 | When sep does not occur before the end of a, `split(sep, 1)` of a + sep + b gives a and b. |
| Text.DecimalRoundTrip | response_modifiers.py:175-176 | The decimal text of a number reads back as that number. |
| Text.Utf8Length | response_modifiers.py:194 | The encoded length lies between the number of characters and four times that, and equals it for ASCII text. |
| Text.SetContentLengthAbsent | response_modifiers.py:195 | `re.sub` with no match returns the headers. |
| Text.SetContentLengthLeftmost | response_modifiers.py:195 | The leftmost match, with its whole run of digits, is the one replaced: the text before it is kept, the header keeps its place with only its digits changed to the new value, and the substitution goes on after the digits. |
| Text.EveryHeaderCarries | response_modifiers.py:195 | Every Content-Length header in the result is followed by the new value and then by a non-digit or the end. |
| Text.HeadersStateLength | response_modifiers.py:194-195 | Every Content-Length header in the result states the new length, and reads back as that number. |

## Left out

- Serialisation: `etree.tostring` and `etree.fromstring` are not modelled. Transformers return the tree, and an unparsable reply is outside the model.
- The GetConfigurationOptions branch returns a `str` with an XML declaration (response_modifiers.py:81) where the others return `bytes`; the model does not tell the two apart.
- Logging is left out, except that the `MoveStatus.text` concatenation in the log call at response_modifiers.py:98 raises TypeError when there is no text; that is modelled.
- Real time and threads: a timer is an identity stored with its delay, and its expiry is an explicit event (`Expire`). Daemon flags, the timer thread and races between a callback and a request are not modelled.
- The `isinstance(existing, threading.Timer)` test is modelled as "a timer is stored"; the record never holds anything else under '_move_timer'. The `try/except` around `cancel()` is left out because `cancel` does not raise.
- RequestModifier.RescaledInRange: float() and `:g` are parameters, so the range of the coordinates sent is proved only under FormatIsStable (printed values in [-1, 1] read back in [-1, 1] and print the same). NaN, infinities, rounding and `:g`'s six significant digits are not modelled.
- RequestModifier.RescaleIdempotentAtUnit: proved under UnitIsNeutral and FormatIsStable, for the same reason.
- Integer settings: 'move_timeout', 'x_multiplier' and 'y_multiplier' are reals; an `int` setting in the record is the same number.
- Element tails: lxml keeps the text after an element (its `.tail`) on the element; the model does not represent tails. So `Body.remove(Fault)` dropping the Fault's tail (response_modifiers.py:154), and the tails around an inserted space, are not represented.
- Tree aliasing: lxml elements are mutable objects, but the model keeps the tree as a value and an edit rebuilds the path to the node.
- The `spaces.append` branch (response_modifiers.py:77-78) is not modelled. It cannot be reached: the branch is taken only when a relative space exists, so the last index is always found.
- ResponseModifier.StatusPoll: the two writes of the MoveStatus text (lines 99 and 116) are modelled as one write of the final text. TwoWritesAreOne proves the two agree, and PositionSearchUnaffected proves that the first write does not change the Position search in between.
- Ports are natural numbers printed in decimal; hosts and ports of other types are not modelled.
- The camera name is read into a local variable by fix_header_size (response_modifiers.py:181) and never used, so it is not modelled. The unused 'operation' parameter of fix_header_size is left out.
- The HTTP plumbing (onvif_proxy.py, forward_proxy.py) is not part of this model, including how the operation name is extracted from the request Body. That step supplies the name that `OperationNamed` dispatches on.
- A request with no parsed root (`parse_soap_request` failing) is not modelled.
