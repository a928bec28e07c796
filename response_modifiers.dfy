/**
  The response side of the proxy: camera URLs in a reply are turned into the
  proxy's, and four operations have their parsed replies adjusted:
  GetConfigurationOptions gains a field-of-view translation space, GetStatus
  reports the proxy's own motion status, GetServiceCapabilities advertises
  status support, and a failed RelativeMove is turned into a success.
  `fix_header_size`, which also recomputes the Content-Length header, is
  modelled as it is defined, though the request handler does not call it.
 */
module ResponseModifier {
  import opened Wrappers
  import opened Xml
  import opened Onvif
  import opened Helpers
  import opened Text

  // ---------------------------------------------------------------- GetConfigurationOptions

  /** The check a RelativePanTiltTranslationSpace gets: Ok(true) when the text
      of its first URI child names the FOV space, a TypeError when that child
      has no text (`in` on None); every other child passes with Ok(false). */
  function SpaceCheck(c: Element): Result<bool>
  {
    if c.tag != TT_RELATIVE_PT_SPACE then Ok(false)
    else match FirstChild(c.children, TT_URI)
      case None => Ok(false)
      case Some(k) =>
        if c.children[k].text.None? then Raised(TypeError)
        else Ok(Contains(c.children[k].text.value, FOV_MARKER))
  }

  /** The loop over the relative spaces: the first check that does not pass decides. */
  function FovScan(cs: seq<Element>): (r: Result<bool>)
    ensures r.Raised? ==> r.error == TypeError
    decreases |cs|
  {
    if |cs| == 0 then Ok(false)
    else if SpaceCheck(cs[0]) != Ok(false) then SpaceCheck(cs[0])
    else FovScan(cs[1..])
  }

  /** The scan passes (finds no FOV space) exactly when every child passes its check. */
  lemma {:induction false} FovScanPassesAll(cs: seq<Element>)
    ensures FovScan(cs) == Ok(false) <==> forall i :: 0 <= i < |cs| ==> SpaceCheck(cs[i]) == Ok(false)
    decreases |cs|
  {
    if |cs| > 0 {
      FovScanPassesAll(cs[1..]);
      assert forall i :: 1 <= i < |cs| ==> cs[i] == cs[1..][i - 1];
    }
  }

  /** A scan that does not pass returns the outcome of the first space that does not pass. */
  lemma {:induction false} FovScanFirstDecides(cs: seq<Element>)
    requires FovScan(cs) != Ok(false)
    ensures exists i :: 0 <= i < |cs| && FovScan(cs) == SpaceCheck(cs[i]) && forall j :: 0 <= j < i ==> SpaceCheck(cs[j]) == Ok(false)
    decreases |cs|
  {
    if SpaceCheck(cs[0]) != Ok(false) {
      assert FovScan(cs) == SpaceCheck(cs[0]);
    } else {
      FovScanFirstDecides(cs[1..]);
      var i :| 0 <= i < |cs[1..]| && FovScan(cs[1..]) == SpaceCheck(cs[1..][i]) && forall j :: 0 <= j < i ==> SpaceCheck(cs[1..][j]) == Ok(false);
      assert cs[1..][i] == cs[i + 1];
      forall j | 0 <= j < i + 1
        ensures SpaceCheck(cs[j]) == Ok(false)
      {
        if j > 0 {
          assert cs[j] == cs[1..][j - 1];
        }
      }
    }
  }

  /** A scan over a concatenation scans the second part only when the first passes. */
  lemma {:induction false} FovScanSplit(a: seq<Element>, b: seq<Element>)
    ensures FovScan(a + b) == if FovScan(a) == Ok(false) then FovScan(b) else FovScan(a)
    decreases |a|
  {
    if |a| == 0 {
      assert a + b == b;
    } else {
      assert (a + b)[0] == a[0];
      assert (a + b)[1..] == a[1..] + b;
      FovScanSplit(a[1..], b);
    }
  }

  /** The loop of the source over the relative spaces. */
  method FindFovSpace(cs: seq<Element>) returns (r: Result<bool>)
    ensures r == FovScan(cs)
  {
    var i := 0;
    assert cs[0..] == cs;
    while i < |cs|
      invariant 0 <= i <= |cs|
      invariant FovScan(cs[i..]) == FovScan(cs)
    {
      var space := cs[i];
      assert cs[i..][0] == space && cs[i..][1..] == cs[i + 1..];
      if space.tag == TT_RELATIVE_PT_SPACE {
        var uri := FirstChild(space.children, TT_URI);
        if uri.Some? {
          var text := space.children[uri.value].text;
          if text.None? {
            return Raised(TypeError);
          }
          if Contains(text.value, FOV_MARKER) {
            return Ok(true);
          }
        }
      }
      i := i + 1;
    }
    return Ok(false);
  }

  /** The index of the last child with the given tag. */
  function LastWithTag(cs: seq<Element>, tag: string): (r: Option<nat>)
    ensures r.Some? ==> r.value < |cs| && cs[r.value].tag == tag
    ensures r.Some? ==> forall j :: r.value < j < |cs| ==> cs[j].tag != tag
    ensures r.None? <==> forall j :: 0 <= j < |cs| ==> cs[j].tag != tag
    decreases |cs|
  {
    if |cs| == 0 then None
    else if cs[|cs| - 1].tag == tag then Some(|cs| - 1)
    else
      var r := LastWithTag(cs[..|cs| - 1], tag);
      assert forall j :: 0 <= j < |cs| - 1 ==> cs[..|cs| - 1][j] == cs[j];
      r
  }

  /** The loop of the source that remembers the last relative space. */
  method LastRelativeSpaceIndex(cs: seq<Element>) returns (last: Option<nat>)
    ensures last == LastWithTag(cs, TT_RELATIVE_PT_SPACE)
  {
    last := None;
    for idx := 0 to |cs|
      invariant last == LastWithTag(cs[..idx], TT_RELATIVE_PT_SPACE)
    {
      assert cs[..idx + 1][..idx] == cs[..idx];
      if cs[idx].tag == TT_RELATIVE_PT_SPACE {
        last := Some(idx);
      }
    }
    assert cs[..|cs|] == cs;
  }

  function Range(tag: string): Element
  {
    Element(tag, map[], None, [Element(TT_MIN, map[], Some("-1"), []), Element(TT_MAX, map[], Some("1"), [])])
  }

  /** The space the proxy adds: the FOV URI with X and Y ranges from -1 to 1. */
  function FovSpace(): Element
  {
    Element(TT_RELATIVE_PT_SPACE, map[], None, [Element(TT_URI, map[], Some(FOV_SPACE_URI), []), Range(TT_XRANGE), Range(TT_YRANGE)])
  }

  /** The added space is one the check recognises. */
  lemma FovSpaceRecognised()
    ensures SpaceCheck(FovSpace()) == Ok(true)
  {
    FovUriNamesFov();
    assert FirstChild(FovSpace().children, TT_URI) == Some(0);
  }

  /** The FOV space URI holds the marker the check looks for. */
  lemma FovUriNamesFov()
    ensures Contains(FOV_SPACE_URI, FOV_MARKER)
  {
    assert FOV_SPACE_URI[|PAN_TILT_SPACES|..] == FOV_MARKER;
    assert OccursAt(FOV_SPACE_URI, FOV_MARKER, |PAN_TILT_SPACES|);
  }

  /** `insert(k, x)` on a list of children: x lands at index k. */
  function Insert(cs: seq<Element>, k: nat, x: Element): (r: seq<Element>)
    requires k <= |cs|
    ensures |r| == |cs| + 1 && r[k] == x
    ensures forall j :: 0 <= j < k ==> r[j] == cs[j]
    ensures forall j :: k < j < |r| ==> r[j] == cs[j - 1]
  {
    cs[..k] + [x] + cs[k..]
  }

  /** The reply needs the FOV space: a Spaces element with a relative space, none of them the FOV one. */
  predicate NeedsFov(root: Element)
  {
    && Find(root, Tag(TT_SPACES)).Some?
    && var spaces := At(root, Find(root, Tag(TT_SPACES)).value);
    && FirstChild(spaces.children, TT_RELATIVE_PT_SPACE).Some?
    && FovScan(spaces.children) == Ok(false)
  }

  /** The GetConfigurationOptions branch of `modify_onvif_response`. */
  function ConfigurationOptions(root: Element): (r: Result<Element>)
    ensures r.Raised? <==> r == Raised(TypeError)
    ensures r.Raised? <==>
      && Find(root, Tag(TT_SPACES)).Some?
      && FirstChild(At(root, Find(root, Tag(TT_SPACES)).value).children, TT_RELATIVE_PT_SPACE).Some?
      && FovScan(At(root, Find(root, Tag(TT_SPACES)).value).children).Raised?
    ensures !NeedsFov(root) ==> r == Ok(root) || r == Raised(TypeError)
  {
    match Find(root, Tag(TT_SPACES))
    case None => Ok(root)
    case Some(s) =>
      var spaces := At(root, s);
      if FirstChild(spaces.children, TT_RELATIVE_PT_SPACE).None? then Ok(root)
      else match FovScan(spaces.children)
        case Raised(e) => Raised(e)
        case Ok(true) => Ok(root)
        case Ok(false) =>
          Ok(WithSpaceAdded(root, s, FovSpace()))
  }

  /** root with x inserted into the children of the node at s, right after its last relative space. */
  function WithSpaceAdded(root: Element, s: Path, x: Element): Element
    requires IsPath(root, s) && LastWithTag(At(root, s).children, TT_RELATIVE_PT_SPACE).Some?
  {
    var cs := At(root, s).children;
    Replace(root, s, At(root, s).(children := Insert(cs, LastWithTag(cs, TT_RELATIVE_PT_SPACE).value + 1, x)))
  }

  /** The GetConfigurationOptions branch, with its two loops. */
  method AddFovSpace(root: Element) returns (r: Result<Element>)
    ensures r == ConfigurationOptions(root)
  {
    var s := Find(root, Tag(TT_SPACES));
    if s.None? {
      return Ok(root);
    }
    var spaces := At(root, s.value);
    if FirstChild(spaces.children, TT_RELATIVE_PT_SPACE).None? {
      return Ok(root);
    }
    var found := FindFovSpace(spaces.children);
    if found.Raised? {
      return Raised(found.error);
    }
    if found.value {
      return Ok(root);
    }
    var last := LastRelativeSpaceIndex(spaces.children);
    r := Ok(Replace(root, s.value, spaces.(children := Insert(spaces.children, last.value + 1, FovSpace()))));
  }

  /**
    When the reply needs it, the FOV space is inserted right after the last
    relative space of the first Spaces element; the other children keep their
    order, and nothing outside that Spaces element changes.
   */
  lemma FovInserted(root: Element)
    requires NeedsFov(root)
    ensures ConfigurationOptions(root).Ok?
    ensures var s := Find(root, Tag(TT_SPACES)).value;
      var cs := At(root, s).children;
      var d := ConfigurationOptions(root).value;
      && IsPath(d, s)
      && Label(At(d, s)) == Label(At(root, s))
      && (exists k :: 0 < k <= |cs|
           && cs[k - 1].tag == TT_RELATIVE_PT_SPACE
           && (forall j :: k <= j < |cs| ==> cs[j].tag != TT_RELATIVE_PT_SPACE)
           && At(d, s).children == cs[..k] + [FovSpace()] + cs[k..])
    ensures var s := Find(root, Tag(TT_SPACES)).value;
      var d := ConfigurationOptions(root).value;
      forall q :: !Prefix(s, q) ==> (IsPath(root, q) <==> IsPath(d, q)) && (IsPath(root, q) ==> Label(At(d, q)) == Label(At(root, q)))
  {
    var s := Find(root, Tag(TT_SPACES)).value;
    var cs := At(root, s).children;
    var k := LastWithTag(cs, TT_RELATIVE_PT_SPACE).value + 1;
    assert ConfigurationOptions(root) == Ok(WithSpaceAdded(root, s, FovSpace()));
    InsertedAfterLast(root, s, FovSpace());
  }

  /** The insertion itself, for any new child x. */
  lemma InsertedAfterLast(root: Element, s: Path, x: Element)
    requires IsPath(root, s) && LastWithTag(At(root, s).children, TT_RELATIVE_PT_SPACE).Some?
    ensures var cs := At(root, s).children;
      var k := LastWithTag(cs, TT_RELATIVE_PT_SPACE).value + 1;
      var d := WithSpaceAdded(root, s, x);
      && IsPath(d, s)
      && Label(At(d, s)) == Label(At(root, s))
      && 0 < k <= |cs|
      && cs[k - 1].tag == TT_RELATIVE_PT_SPACE
      && (forall j :: k <= j < |cs| ==> cs[j].tag != TT_RELATIVE_PT_SPACE)
      && At(d, s).children == cs[..k] + [x] + cs[k..]
      && (forall q :: !Prefix(s, q) ==> (IsPath(root, q) <==> IsPath(d, q)) && (IsPath(root, q) ==> Label(At(d, q)) == Label(At(root, q))))
  {
    var spaces := At(root, s);
    var k := LastWithTag(spaces.children, TT_RELATIVE_PT_SPACE).value + 1;
    var v := spaces.(children := Insert(spaces.children, k, x));
    var d := Replace(root, s, v);
    ReplaceAt(root, s, v);
    forall q | !Prefix(s, q)
      ensures (IsPath(root, q) <==> IsPath(d, q)) && (IsPath(root, q) ==> Label(At(d, q)) == Label(At(root, q)))
    {
      ReplaceOutside(root, s, v, q);
    }
  }

  /** A prefix of children that all pass passes. */
  lemma FovScanPrefix(cs: seq<Element>, k: nat)
    requires k <= |cs| && FovScan(cs) == Ok(false)
    ensures FovScan(cs[..k]) == Ok(false)
  {
    assert cs[..k] + cs[k..] == cs;
    FovScanSplit(cs[..k], cs[k..]);
  }

  /** A scan stops at a first child that names the FOV space. */
  lemma FovScanHead(x: Element, rest: seq<Element>)
    requires SpaceCheck(x) == Ok(true)
    ensures FovScan([x] + rest) == Ok(true)
  {
    assert ([x] + rest)[0] == x;
  }

  /** Inserting a space that names the FOV space into spaces that lack it makes the scan find it. */
  lemma ScanFindsInserted(cs: seq<Element>, k: nat, x: Element)
    requires k <= |cs| && FovScan(cs) == Ok(false) && SpaceCheck(x) == Ok(true)
    ensures FovScan(Insert(cs, k, x)) == Ok(true)
  {
    FovScanPrefix(cs, k);
    FovScanHead(x, cs[k..]);
    InsertSplits(cs, k, x);
    FovScanSplit(cs[..k], [x] + cs[k..]);
  }

  /** An insertion is the part before, then x leading the part after. */
  lemma InsertSplits(cs: seq<Element>, k: nat, x: Element)
    requires k <= |cs|
    ensures Insert(cs, k, x) == cs[..k] + ([x] + cs[k..])
  {
  }

  /** Adding the FOV space is idempotent: a reply that has it is left alone. */
  lemma ConfigurationOptionsIdempotent(root: Element)
    requires ConfigurationOptions(root).Ok?
    ensures var d := ConfigurationOptions(root).value;
      ConfigurationOptions(d) == Ok(d)
  {
    if NeedsFov(root) {
      var s := Find(root, Tag(TT_SPACES)).value;
      var spaces := At(root, s);
      var cs := spaces.children;
      var k := LastWithTag(cs, TT_RELATIVE_PT_SPACE).value + 1;
      var v := spaces.(children := Insert(cs, k, FovSpace()));
      var d := Replace(root, s, v);
      assert ConfigurationOptions(root) == Ok(d);
      FindAfterReplace(root, 0, Tag(TT_SPACES), s, v);
      ReplaceAt(root, s, v);
      assert Find(d, Tag(TT_SPACES)) == Some(s) && At(d, s) == v;
      assert v.children[k] == FovSpace();
      assert FirstChild(v.children, TT_RELATIVE_PT_SPACE).Some?;
      FovSpaceRecognised();
      ScanFindsInserted(cs, k, FovSpace());
    }
  }

  // ---------------------------------------------------------------- GetStatus

  /** The status text of the record; 'IDLE' when it has none. */
  function StatusText(s: Option<MotionStatus>): (t: string)
    ensures t == "MOVING" <==> s == Some(Moving)
    ensures t == "MOVING" || t == "IDLE"
  {
    if s == Some(Moving) then "MOVING" else "IDLE"
  }

  /** An attribute, or None: `Element.get`. */
  function Attr(e: Element, key: string): Option<string>
  {
    if key in e.attrs then Some(e.attrs[key]) else None
  }

  /**
    What a response transformer produced: the document to send (or the
    exception raised), whether it ran set_idle, and the position it
    stored in 'status_x' / 'status_y' (None: they were not written).
   */
  datatype Reply = Reply(doc: Result<Element>, forceIdle: bool, observed: Option<(Option<string>, Option<string>)>)

  /** The PTZStatus of a reply, and the first MoveStatus/PanTilt and Position/PanTilt below it. */
  predicate HasMoveStatus(root: Element)
  {
    && Find(root, Tag(TPTZ_PTZ_STATUS)).Some?
    && FindPair(At(root, Find(root, Tag(TPTZ_PTZ_STATUS)).value), TT_MOVE_STATUS, TT_PAN_TILT).Some?
  }

  function MoveStatusPath(root: Element): (p: Path)
    requires HasMoveStatus(root)
    ensures IsPath(root, p) && At(root, p).tag == TT_PAN_TILT
  {
    var z := Find(root, Tag(TPTZ_PTZ_STATUS)).value;
    var m := FindPair(At(root, z), TT_MOVE_STATUS, TT_PAN_TILT).value;
    AtConcat(root, z, m);
    z + m
  }

  /** The x and y attributes of the first Position/PanTilt below the first
      PTZStatus, or None when there is no such element. */
  function PositionSeen(root: Element): Option<(Option<string>, Option<string>)>
  {
    match Find(root, Tag(TPTZ_PTZ_STATUS))
    case None => None
    case Some(z) =>
      match FindPair(At(root, z), TT_POSITION, TT_PAN_TILT)
      case None => None
      case Some(q) => Some((Attr(At(At(root, z), q), "x"), Attr(At(At(root, z), q), "y")))
  }

  /**
    The GetStatus branch of `modify_onvif_response`, given the record's
    'status', 'status_x' and 'status_y'. The MoveStatus text is written with
    the recorded status and, when the camera reports the position of the
    previous poll, overwritten with 'IDLE'; the document holds the last write.
   */
  function StatusPoll(root: Element, status: Option<MotionStatus>, lastX: Option<string>, lastY: Option<string>): (r: Reply)
    ensures r.doc.Raised? ==> r.doc.error == TypeError && !r.forceIdle && r.observed.None?
    ensures r.forceIdle ==> lastX.Some? && lastY.Some? && r.observed == Some((lastX, lastY))
    ensures r.doc.Raised? <==> HasMoveStatus(root) && At(root, MoveStatusPath(root)).text.None?
    ensures r.observed == if HasMoveStatus(root) && At(root, MoveStatusPath(root)).text.Some? then PositionSeen(root) else None
    ensures r.forceIdle <==> r.observed.Some? && lastX.Some? && lastY.Some? && r.observed.value == (lastX, lastY)
  {
    match Find(root, Tag(TPTZ_PTZ_STATUS))
    case None => Reply(Ok(root), false, None)
    case Some(z) =>
      var ptz := At(root, z);
      match FindPair(ptz, TT_MOVE_STATUS, TT_PAN_TILT)
      case None => Reply(Ok(root), false, None)
      case Some(m) =>
        AtConcat(root, z, m);
        var ms := At(ptz, m);
        if ms.text.None? then Reply(Raised(TypeError), false, None)
        else match FindPair(ptz, TT_POSITION, TT_PAN_TILT)
          case None => Reply(Ok(Replace(root, z + m, ms.(text := Some(StatusText(status))))), false, None)
          case Some(q) =>
            var pos := At(ptz, q);
            var cx, cy := Attr(pos, "x"), Attr(pos, "y");
            var force := lastX.Some? && lastY.Some? && cx == lastX && cy == lastY;
            var text := if force then "IDLE" else StatusText(status);
            Reply(Ok(Replace(root, z + m, ms.(text := Some(text)))), force, Some((cx, cy)))
  }

  /**
    Writing the MoveStatus text leaves the Position search of the code, run on
    the edited PTZStatus, with the same node and the same attributes.
   */
  lemma PositionSearchUnaffected(root: Element, text: string)
    requires HasMoveStatus(root)
    ensures var z := Find(root, Tag(TPTZ_PTZ_STATUS)).value;
      var p := MoveStatusPath(root);
      var edited := Replace(root, p, At(root, p).(text := Some(text)));
      && IsPath(edited, z)
      && FindPair(At(edited, z), TT_POSITION, TT_PAN_TILT) == FindPair(At(root, z), TT_POSITION, TT_PAN_TILT)
      && SameTags(At(root, z), At(edited, z))
      && (FindPair(At(root, z), TT_POSITION, TT_PAN_TILT).Some? ==>
           var q := FindPair(At(root, z), TT_POSITION, TT_PAN_TILT).value;
           IsPath(At(edited, z), q) && At(At(edited, z), q).attrs == At(At(root, z), q).attrs)
  {
    var z := Find(root, Tag(TPTZ_PTZ_STATUS)).value;
    var ptz := At(root, z);
    var m := FindPair(ptz, TT_MOVE_STATUS, TT_PAN_TILT).value;
    var p := MoveStatusPath(root);
    var v := At(root, p).(text := Some(text));
    AtConcat(root, z, m);
    ReplaceConcat(root, z, m, v);
    var ptz' := Replace(ptz, m, v);
    ReplaceAt(root, z, ptz');
    var edited := Replace(root, p, v);
    assert edited == Replace(root, z, ptz');
    assert At(edited, z) == ptz';
    assert At(ptz, m) == At(root, p);
    SameTagsRefl(v);
    ReplaceSameTags(ptz, m, v);
    FindPairSameTags(ptz, ptz', TT_POSITION, TT_PAN_TILT);
    if FindPair(ptz, TT_POSITION, TT_PAN_TILT).Some? {
      var q := FindPair(ptz, TT_POSITION, TT_PAN_TILT).value;
      EditLabel(ptz, m, v);
      if q != m {
        assert Label(At(ptz, q)) == Label(At(ptz', q));
      }
    }
  }

  /** The two writes of the forced case amount to the last one. */
  lemma TwoWritesAreOne(root: Element, first: string, second: string)
    requires HasMoveStatus(root)
    ensures var p := MoveStatusPath(root);
      var once := Replace(root, p, At(root, p).(text := Some(first)));
      IsPath(once, p) && Replace(once, p, At(once, p).(text := Some(second))) == Replace(root, p, At(root, p).(text := Some(second)))
  {
    var p := MoveStatusPath(root);
    var ms := At(root, p);
    ReplaceAt(root, p, ms.(text := Some(first)));
    ReplaceTwice(root, p, ms.(text := Some(first)), ms.(text := Some(second)));
  }

  /**
    A poll rewrites the MoveStatus text and nothing else: 'IDLE' when it
    forces idle, the recorded status otherwise.
   */
  lemma PollRewritesMoveStatus(root: Element, status: Option<MotionStatus>, lastX: Option<string>, lastY: Option<string>)
    requires HasMoveStatus(root) && At(root, MoveStatusPath(root)).text.Some?
    ensures var r := StatusPoll(root, status, lastX, lastY);
      var p := MoveStatusPath(root);
      && r.doc.Ok?
      && SameExceptLabelAt(root, r.doc.value, p)
      && IsPath(r.doc.value, p)
      && At(r.doc.value, p) == At(root, p).(text := Some(if r.forceIdle then "IDLE" else StatusText(status)))
  {
    var r := StatusPoll(root, status, lastX, lastY);
    var p := MoveStatusPath(root);
    var v := At(root, p).(text := Some(if r.forceIdle then "IDLE" else StatusText(status)));
    var z := Find(root, Tag(TPTZ_PTZ_STATUS)).value;
    var m := FindPair(At(root, z), TT_MOVE_STATUS, TT_PAN_TILT).value;
    AtConcat(root, z, m);
    assert p == z + m && At(root, p) == At(At(root, z), m);
    assert r.doc == Ok(Replace(root, p, v));
    EditLabel(root, p, v);
  }

  /** The first poll, with no stored position, reports the record's status unchanged. */
  lemma FirstPollNeverForces(root: Element, status: Option<MotionStatus>, lastX: Option<string>, lastY: Option<string>)
    requires lastX.None? || lastY.None?
    ensures !StatusPoll(root, status, lastX, lastY).forceIdle
  {
  }

  /**
    A poll stores the position it saw; a second poll of a camera that has
    not moved sees the same position and forces IDLE, and the reply says so.
   */
  lemma SecondPollOfStillCameraForcesIdle(root: Element, s1: Option<MotionStatus>, s2: Option<MotionStatus>, lastX: Option<string>, lastY: Option<string>)
    requires var r := StatusPoll(root, s1, lastX, lastY); r.observed.Some? && r.observed.value.0.Some? && r.observed.value.1.Some?
    ensures var obs := StatusPoll(root, s1, lastX, lastY).observed.value;
      var r2 := StatusPoll(root, s2, obs.0, obs.1);
      && r2.forceIdle
      && r2.observed == Some(obs)
      && HasMoveStatus(root)
      && r2.doc.Ok? && IsPath(r2.doc.value, MoveStatusPath(root))
      && At(r2.doc.value, MoveStatusPath(root)).text == Some("IDLE")
  {
    var obs := StatusPoll(root, s1, lastX, lastY).observed.value;
    PollRewritesMoveStatus(root, s2, obs.0, obs.1);
  }

  /** While the record says MOVING and the camera's position changes, the reply says MOVING. */
  lemma MovingReportedWhilePositionChanges(root: Element, lastX: Option<string>, lastY: Option<string>)
    requires HasMoveStatus(root) && At(root, MoveStatusPath(root)).text.Some?
    requires var r := StatusPoll(root, Some(Moving), lastX, lastY); r.observed.Some? && r.observed.value != (lastX, lastY)
    ensures var r := StatusPoll(root, Some(Moving), lastX, lastY);
      && !r.forceIdle && r.doc.Ok? && IsPath(r.doc.value, MoveStatusPath(root))
      && At(r.doc.value, MoveStatusPath(root)).text == Some("MOVING")
  {
    PollRewritesMoveStatus(root, Some(Moving), lastX, lastY);
  }

  /** Without a PTZStatus, or without a MoveStatus/PanTilt in it, the reply passes unchanged. */
  lemma PollWithoutMoveStatus(root: Element, status: Option<MotionStatus>, lastX: Option<string>, lastY: Option<string>)
    requires !HasMoveStatus(root)
    ensures StatusPoll(root, status, lastX, lastY) == Reply(Ok(root), false, None)
  {
  }

  // ---------------------------------------------------------------- GetServiceCapabilities

  function Advertised(cap: Element): Element
  {
    cap.(attrs := cap.attrs["MoveStatus" := "true"]["StatusPosition" := "true"])
  }

  /** The GetServiceCapabilities branch: the first Capabilities element is marked as supporting status. */
  function ServiceCapabilities(root: Element): (r: Element)
    ensures Find(root, Tag(TPTZ_CAPABILITIES)).None? ==> r == root
  {
    match Find(root, Tag(TPTZ_CAPABILITIES))
    case None => root
    case Some(c) => Replace(root, c, Advertised(At(root, c)))
  }

  /**
    The Capabilities element then carries MoveStatus="true" and
    StatusPosition="true", keeps its other attributes, and nothing else changes.
   */
  lemma CapabilitiesAdvertised(root: Element)
    requires Find(root, Tag(TPTZ_CAPABILITIES)).Some?
    ensures var c := Find(root, Tag(TPTZ_CAPABILITIES)).value;
      var d := ServiceCapabilities(root);
      && SameExceptLabelAt(root, d, c)
      && IsPath(d, c)
      && At(d, c).attrs.Keys == At(root, c).attrs.Keys + {"MoveStatus", "StatusPosition"}
      && At(d, c).attrs["MoveStatus"] == "true" && At(d, c).attrs["StatusPosition"] == "true"
      && (forall k :: k in At(root, c).attrs && k != "MoveStatus" && k != "StatusPosition" ==> At(d, c).attrs[k] == At(root, c).attrs[k])
      && At(d, c).tag == At(root, c).tag && At(d, c).text == At(root, c).text
  {
    var c := Find(root, Tag(TPTZ_CAPABILITIES)).value;
    EditLabel(root, c, Advertised(At(root, c)));
  }

  lemma ServiceCapabilitiesIdempotent(root: Element)
    ensures ServiceCapabilities(ServiceCapabilities(root)) == ServiceCapabilities(root)
  {
    if Find(root, Tag(TPTZ_CAPABILITIES)).Some? {
      var c := Find(root, Tag(TPTZ_CAPABILITIES)).value;
      var v := Advertised(At(root, c));
      FindAfterReplace(root, 0, Tag(TPTZ_CAPABILITIES), c, v);
      ReplaceAt(root, c, v);
      assert Advertised(v) == v;
      ReplaceTwice(root, c, v, v);
    }
  }

  // ---------------------------------------------------------------- RelativeMove

  /** The empty success element that replaces the fault. */
  function RelativeMoveResponse(): Element
  {
    Element(TPTZ_RELATIVE_MOVE_RESPONSE, map[], None, [])
  }

  predicate ChildOf(f: Path, b: Path)
  {
    |f| == |b| + 1 && f[..|b|] == b
  }

  function RemoveAt(cs: seq<Element>, k: nat): (r: seq<Element>)
    requires k < |cs|
    ensures |r| == |cs| - 1
    ensures forall j :: 0 <= j < k ==> r[j] == cs[j]
    ensures forall j :: k <= j < |r| ==> r[j] == cs[j + 1]
  {
    cs[..k] + cs[k + 1..]
  }

  /**
    The RelativeMove branch: the first Fault is removed from the first Body
    and an empty RelativeMoveResponse appended; `Body.remove` raises a
    ValueError when that Fault is not a child of that Body.
   */
  function RelativeMoveReply(root: Element): (r: Result<Element>)
    ensures Find(root, Tag(SOAP_FAULT)).None? || Find(root, Tag(SOAP_BODY)).None? ==> r == Ok(root)
    ensures r.Raised? <==>
      && Find(root, Tag(SOAP_FAULT)).Some? && Find(root, Tag(SOAP_BODY)).Some?
      && !ChildOf(Find(root, Tag(SOAP_FAULT)).value, Find(root, Tag(SOAP_BODY)).value)
    ensures r.Raised? ==> r.error == ValueError
  {
    match Find(root, Tag(SOAP_FAULT))
    case None => Ok(root)
    case Some(f) =>
      match Find(root, Tag(SOAP_BODY))
      case None => Ok(root)
      case Some(b) =>
        if !ChildOf(f, b) then Raised(ValueError)
        else
          var k := f[|b|];
          assert f == b + [k];
          ChildPath(root, b, k);
          var body := At(root, b);
          Ok(Replace(root, b, body.(children := RemoveAt(body.children, k) + [RelativeMoveResponse()])))
  }

  /**
    When the fault is fixed, the Body has the same number of children: the
    Fault's place is closed, RelativeMoveResponse comes last, and nothing
    outside the Body changes.
   */
  lemma FaultReplaced(root: Element)
    requires Find(root, Tag(SOAP_FAULT)).Some? && Find(root, Tag(SOAP_BODY)).Some?
    requires ChildOf(Find(root, Tag(SOAP_FAULT)).value, Find(root, Tag(SOAP_BODY)).value)
    ensures RelativeMoveReply(root).Ok?
    ensures var f := Find(root, Tag(SOAP_FAULT)).value;
      var b := Find(root, Tag(SOAP_BODY)).value;
      var d := RelativeMoveReply(root).value;
      var k := f[|b|];
      var cs := At(root, b).children;
      && k < |cs| && cs[k].tag == SOAP_FAULT
      && IsPath(d, b)
      && Label(At(d, b)) == Label(At(root, b))
      && At(d, b).children == cs[..k] + cs[k + 1..] + [RelativeMoveResponse()]
      && |At(d, b).children| == |cs|
      && (forall q :: !Prefix(b, q) ==> (IsPath(root, q) <==> IsPath(d, q)) && (IsPath(root, q) ==> Label(At(d, q)) == Label(At(root, q))))
  {
    var f := Find(root, Tag(SOAP_FAULT)).value;
    var b := Find(root, Tag(SOAP_BODY)).value;
    var k := f[|b|];
    assert f == b + [k];
    ChildPath(root, b, k);
    var body := At(root, b);
    var v := body.(children := RemoveAt(body.children, k) + [RelativeMoveResponse()]);
    var d := Replace(root, b, v);
    assert RelativeMoveReply(root) == Ok(d);
    ReplaceAt(root, b, v);
    forall q | !Prefix(b, q)
      ensures (IsPath(root, q) <==> IsPath(d, q)) && (IsPath(root, q) ==> Label(At(d, q)) == Label(At(root, q)))
    {
      ReplaceOutside(root, b, v, q);
    }
  }

  /** The usual fault reply, an Envelope whose Body holds only the Fault, becomes an empty success. */
  lemma FaultEnvelopeBecomesSuccess(header: Element, fault: Element)
    requires fault.tag == SOAP_FAULT && header.tag != SOAP_FAULT && header.tag != SOAP_BODY
    requires Find(header, Tag(SOAP_FAULT)).None? && Find(header, Tag(SOAP_BODY)).None?
    ensures var body := Element(SOAP_BODY, map[], None, [fault]);
      var envelope := Element("{http://www.w3.org/2003/05/soap-envelope}Envelope", map[], None, [header, body]);
      RelativeMoveReply(envelope) == Ok(envelope.(children := [header, body.(children := [RelativeMoveResponse()])]))
  {
    var body := Element(SOAP_BODY, map[], None, [fault]);
    var envelope := Element("{http://www.w3.org/2003/05/soap-envelope}Envelope", map[], None, [header, body]);
    assert FindFrom(body, 0, Tag(SOAP_FAULT)) == Some([0]);
    assert [1] + [0] == [1, 0];
    assert FindFrom(envelope, 1, Tag(SOAP_FAULT)) == Some([1, 0]);
    assert FindFrom(envelope, 0, Tag(SOAP_FAULT)) == Some([1, 0]);
    assert FindFrom(envelope, 1, Tag(SOAP_BODY)) == Some([1]);
    assert FindFrom(envelope, 0, Tag(SOAP_BODY)) == Some([1]);
    assert [1, 0][..1] == [1] && [1, 0][1] == 0;
    assert RemoveAt([fault], 0) == [];
    assert [1][1..] == [];
    assert At(envelope, [1]) == body;
    assert ChildOf([1, 0], [1]);
    assert RemoveAt(body.children, 0) + [RelativeMoveResponse()] == [RelativeMoveResponse()];
    var body' := body.(children := [RelativeMoveResponse()]);
    assert RelativeMoveReply(envelope) == Ok(Replace(envelope, [1], body'));
    assert [1][1..] == [];
    assert Replace(envelope, [1], body') == envelope.(children := envelope.children[1 := body']);
    assert envelope.children[1 := body'] == [header, body'];
  }

  // ---------------------------------------------------------------- dispatch

  /** `modify_onvif_response` on a parsed reply, given the record's motion entries. */
  function Response(op: Operation, root: Element, status: Option<MotionStatus>, lastX: Option<string>, lastY: Option<string>): (r: Reply)
    ensures !op.GetStatus? ==> !r.forceIdle && r.observed.None?
    ensures !(op.GetConfigurationOptions? || op.GetStatus? || op.GetServiceCapabilities? || op.RelativeMove?) ==> r.doc == Ok(root)
    ensures op.GetConfigurationOptions? ==> r.doc == ConfigurationOptions(root)
    ensures op.GetStatus? ==> r == StatusPoll(root, status, lastX, lastY)
    ensures op.GetServiceCapabilities? ==> r.doc == Ok(ServiceCapabilities(root))
    ensures op.RelativeMove? ==> r.doc == RelativeMoveReply(root)
  {
    match op
    case GetConfigurationOptions => Reply(ConfigurationOptions(root), false, None)
    case GetStatus => StatusPoll(root, status, lastX, lastY)
    case GetServiceCapabilities => Reply(Ok(ServiceCapabilities(root)), false, None)
    case RelativeMove => Reply(RelativeMoveReply(root), false, None)
    case _ => Reply(Ok(root), false, None)
  }

  /** The transformer with the camera's record. */
  method ModifyResponse(cfg: CameraConfig, op: Operation, root: Element) returns (r: Result<Element>)
    requires cfg.Valid()
    modifies cfg`status, cfg`moveTimer, cfg`pending, cfg`statusX, cfg`statusY
    ensures cfg.Valid()
    ensures var reply := Response(op, root, old(cfg.status), old(cfg.statusX), old(cfg.statusY));
      && r == reply.doc
      && cfg.MotionState() == (if reply.forceIdle then AfterSetIdle(old(cfg.MotionState())) else old(cfg.MotionState()))
      && (cfg.statusX, cfg.statusY) == (if reply.observed.Some? then reply.observed.value else (old(cfg.statusX), old(cfg.statusY)))
  {
    if op.GetConfigurationOptions? {
      r := AddFovSpace(root);
    } else if op.GetStatus? {
      var poll := StatusPoll(root, cfg.status, cfg.statusX, cfg.statusY);
      if poll.forceIdle {
        cfg.SetIdle();
      }
      if poll.observed.Some? {
        cfg.statusX, cfg.statusY := poll.observed.value.0, poll.observed.value.1;
      }
      r := poll.doc;
    } else if op.GetServiceCapabilities? {
      r := Ok(ServiceCapabilities(root));
    } else if op.RelativeMove? {
      r := RelativeMoveReply(root);
    } else {
      r := Ok(root);
    }
  }

  /** A second GetStatus of a camera standing still brings the record to IDLE with no timer. */
  lemma StillCameraEndsIdle(m: Motion, root: Element, lastX: Option<string>, lastY: Option<string>)
    requires Consistent(m)
    requires var r := StatusPoll(root, m.status, lastX, lastY); r.observed.Some? && r.observed.value.0.Some? && r.observed.value.1.Some?
    ensures var obs := StatusPoll(root, m.status, lastX, lastY).observed.value;
      var m1 := if StatusPoll(root, m.status, lastX, lastY).forceIdle then AfterSetIdle(m) else m;
      var r2 := StatusPoll(root, m1.status, obs.0, obs.1);
      && r2.forceIdle
      && AfterSetIdle(m1).status == Some(Idle) && AfterSetIdle(m1).timer.None? && AfterSetIdle(m1).pending == {}
  {
    var obs := StatusPoll(root, m.status, lastX, lastY).observed.value;
    var m1 := if StatusPoll(root, m.status, lastX, lastY).forceIdle then AfterSetIdle(m) else m;
    SecondPollOfStillCameraForcesIdle(root, m.status, m1.status, lastX, lastY);
    TransitionsKeepConsistent(m, 0.0, 0);
  }

  // ---------------------------------------------------------------- URL rewrite and Content-Length

  /** The proxy address used when the record has no 'proxy_host'. */
  const DefaultProxyHost := "127.0.0.1"

  /** `f"http://{host}:{port}/onvif/service"`. */
  function ServiceUrl(host: string, port: nat): (u: string)
    ensures |u| > 0
  {
    "http://" + host + ":" + DecimalString(port) + "/onvif/service"
  }

  /** The camera's and the proxy's service URLs, as the record gives them. */
  datatype Addresses = Addresses(cameraHost: string, cameraPort: nat, proxyHost: Option<string>, proxyPort: nat)

  function CameraUrl(a: Addresses): string
  {
    ServiceUrl(a.cameraHost, a.cameraPort)
  }

  function ProxyUrl(a: Addresses): string
  {
    ServiceUrl(if a.proxyHost.Some? then a.proxyHost.value else DefaultProxyHost, a.proxyPort)
  }

  /** `rewrite_host_urls`: every camera service URL becomes the proxy's. */
  function RewriteHostUrls(a: Addresses, text: string): string
  {
    ReplaceAll(text, CameraUrl(a), ProxyUrl(a))
  }

  /** A reply that does not mention the camera's URL is passed through. */
  lemma RewriteWithoutCameraUrl(a: Addresses, text: string)
    requires !Contains(text, CameraUrl(a))
    ensures RewriteHostUrls(a, text) == text
  {
    ReplaceAbsent(text, CameraUrl(a), ProxyUrl(a));
  }

  /** The first camera URL of a reply becomes the proxy URL, and the text before it stays. */
  lemma RewriteFirstUrl(a: Addresses, before: string, after: string)
    requires forall i: nat :: i < |before| ==> !OccursAt(before + CameraUrl(a) + after, CameraUrl(a), i)
    ensures RewriteHostUrls(a, before + CameraUrl(a) + after) == before + ProxyUrl(a) + RewriteHostUrls(a, after)
  {
    ReplaceLeftmost(before, after, CameraUrl(a), ProxyUrl(a));
  }

  /** When the proxy has the camera's address, nothing changes. */
  lemma RewriteToSameAddress(a: Addresses, text: string)
    requires CameraUrl(a) == ProxyUrl(a)
    ensures RewriteHostUrls(a, text) == text
  {
    ReplaceByItself(text, CameraUrl(a));
  }

  /** The blank line between the headers and the body of an HTTP message. */
  const SEPARATOR := "\r\n\r\n"

  /** The second half of `fix_header_size`: when there is a blank line, set
      every Content-Length in the headers to the UTF-8 length of the body. */
  function SetBodyLength(s: string): string
  {
    match SplitOnce(s, SEPARATOR)
    case None => s
    case Some((headers, body)) => SetContentLength(headers, DecimalString(|Utf8(body)|)) + SEPARATOR + body
  }

  /** `fix_header_size`: rewrite the URLs, then fix the Content-Length. */
  function FixHeaderSize(a: Addresses, text: string): string
  {
    SetBodyLength(RewriteHostUrls(a, text))
  }

  /**
    With a blank line, the result is the new headers, the blank line and the
    body exactly as it follows the first blank line, and every Content-Length
    header in the new headers states the body's length in UTF-8 bytes, with
    no further digits.
   */
  lemma FixedHeadersCarryBodyLength(s: string)
    requires Contains(s, SEPARATOR)
    ensures var split := SplitOnce(s, SEPARATOR).value;
      var n := |Utf8(split.1)|;
      && split.0 + SEPARATOR + split.1 == s
      && SetBodyLength(s) == SetContentLength(split.0, DecimalString(n)) + SEPARATOR + split.1
      && StatesLength(SetContentLength(split.0, DecimalString(n)), n)
      && |split.1| <= n <= 4 * |split.1|
  {
    var split := SplitOnce(s, SEPARATOR).value;
    HeadersStateLength(split.0, |Utf8(split.1)|);
    Utf8Length(split.1);
  }

  /**
    Where the headers before the first blank line are p, a Content-Length
    header with digits ds, and the rest q, and p holds no such header, the
    result keeps p, keeps the header in its place with the body's UTF-8
    length as its digits, carries on the same way through q, and keeps the
    blank line and the body.
   */
  lemma BodyLengthWritten(s: string, h: string, p: string, ds: string, q: string, body: string)
    requires |ds| > 0 && AllDigits(ds) && (|q| > 0 ==> !IsDigit(q[0]))
    requires h == p + CONTENT_LENGTH + ds + q
    requires forall i: nat :: i < |p| ==> !HeaderAt(h, i)
    requires s == h + SEPARATOR + body
    requires forall j: nat :: j < |h| ==> !OccursAt(s, SEPARATOR, j)
    ensures SetBodyLength(s) ==
      p + (CONTENT_LENGTH + DecimalString(|Utf8(body)|) + SetContentLength(q, DecimalString(|Utf8(body)|))) + SEPARATOR + body
  {
    SplitOnceAt(h, SEPARATOR, body);
    SetContentLengthLeftmost(h, p, ds, q, DecimalString(|Utf8(body)|));
  }

  /**
    `fix_header_size` as a whole: the camera URLs are rewritten first; then,
    when the rewritten text has a blank line, every Content-Length header
    before it states the UTF-8 length of the rewritten body, and otherwise
    the rewritten text is returned as it is.
   */
  lemma FixHeaderSizeRewritesThenFixes(a: Addresses, text: string)
    ensures var u := RewriteHostUrls(a, text);
      !Contains(u, SEPARATOR) ==> FixHeaderSize(a, text) == u
    ensures var u := RewriteHostUrls(a, text);
      Contains(u, SEPARATOR) ==>
        var split := SplitOnce(u, SEPARATOR).value;
        var n := |Utf8(split.1)|;
        && FixHeaderSize(a, text) == SetContentLength(split.0, DecimalString(n)) + SEPARATOR + split.1
        && StatesLength(SetContentLength(split.0, DecimalString(n)), n)
  {
    var u := RewriteHostUrls(a, text);
    if Contains(u, SEPARATOR) {
      FixedHeadersCarryBodyLength(u);
    } else {
      NoBlankLineKept(u);
    }
  }

  /** Without a blank line the text is kept. */
  lemma NoBlankLineKept(s: string)
    requires !Contains(s, SEPARATOR)
    ensures SetBodyLength(s) == s
  {
  }

  /** Headers without a Content-Length are kept as they are. */
  lemma NoContentLengthKept(s: string)
    requires Contains(s, SEPARATOR)
    requires forall i: nat :: !HeaderAt(SplitOnce(s, SEPARATOR).value.0, i)
    ensures SetBodyLength(s) == s
  {
    var (headers, body) := SplitOnce(s, SEPARATOR).value;
    SetContentLengthAbsent(headers, DecimalString(|Utf8(body)|));
  }
}
