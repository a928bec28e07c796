/**
  The request side of the proxy: before a SOAP request goes on to the camera,
  a RelativeMove has the pan/tilt of its first PanTilt element scaled by the
  camera's multipliers and clamped to [-1, 1]. GoToPreset, ContinuousMove
  and AbsoluteMove set the camera's motion status to MOVING, Stop sets it to
  IDLE, and a RelativeMove sets MOVING only when it rewrites the coordinates.
 */
module RequestModifier {
  import opened Wrappers
  import opened Xml
  import opened Onvif
  import opened Helpers

  /**
    Python's floating point as the rewrite uses it: `parse` is `float()` on
    an attribute value (None where it raises ValueError), `format` is the
    `:g` format, and `times` is float multiplication.
   */
  datatype Floats = Floats(parse: string -> Option<real>, format: real -> string, times: (real, real) -> real)

  /** Multiplying by 1.0 gives the number back, as it does for every float. */
  ghost predicate UnitIsNeutral(fl: Floats)
  {
    forall v :: fl.times(v, 1.0) == v
  }

  /**
    How `:g` and `float()` behave on [-1, 1]: the text written for a number
    reads back as a number in [-1, 1] that is written with the same text.
   */
  ghost predicate FormatIsStable(fl: Floats)
  {
    forall v :: -1.0 <= v <= 1.0 ==>
      && fl.parse(fl.format(v)).Some?
      && -1.0 <= fl.parse(fl.format(v)).value <= 1.0
      && fl.format(fl.parse(fl.format(v)).value) == fl.format(v)
  }

  /** The multiplier used when the record has no 'x_multiplier' / 'y_multiplier'. */
  const DefaultMultiplier: real := 1.0

  function Setting(s: Option<real>, default: real): real
  {
    if s.Some? then s.value else default
  }

  /** `max(-1.0, min(1.0, v))`. */
  function Clamp(v: real): (r: real)
    ensures -1.0 <= r <= 1.0
    ensures -1.0 <= v <= 1.0 ==> r == v
    ensures v > 1.0 ==> r == 1.0
    ensures v < -1.0 ==> r == -1.0
  {
    var m := if v < 1.0 then v else 1.0;
    if m > -1.0 then m else -1.0
  }

  /** Clamping is idempotent and monotone. */
  lemma ClampProperties(u: real, v: real)
    ensures Clamp(Clamp(v)) == Clamp(v)
    ensures u <= v ==> Clamp(u) <= Clamp(v)
  {
  }

  /** The PanTilt that a RelativeMove rewrites: the first one in the document. */
  function PanTiltOf(root: Element): (r: Option<Path>)
    ensures r.Some? ==> IsPath(root, r.value) && |r.value| > 0 && At(root, r.value).tag == TT_PAN_TILT
    ensures r.None? ==> forall q :: IsPath(root, q) && |q| > 0 ==> At(root, q).tag != TT_PAN_TILT
    ensures r.Some? ==> forall q :: IsPath(root, q) && |q| > 0 && Before(q, r.value) ==> At(root, q).tag != TT_PAN_TILT
  {
    FindIsFirst(root, Tag(TT_PAN_TILT));
    Find(root, Tag(TT_PAN_TILT))
  }

  /** The PanTilt carries both coordinates, the condition for rewriting it. */
  predicate HasCoordinates(e: Element)
  {
    "x" in e.attrs && "y" in e.attrs
  }

  /** Both coordinates of a PanTilt are readable numbers. */
  predicate Readable(e: Element, fl: Floats)
  {
    HasCoordinates(e) && fl.parse(e.attrs["x"]).Some? && fl.parse(e.attrs["y"]).Some?
  }

  /** The text a rewrite writes for coordinate `key` of pt, with multiplier m. */
  function NewCoordinate(pt: Element, key: string, m: real, fl: Floats): string
    requires key in pt.attrs && fl.parse(pt.attrs[key]).Some?
  {
    fl.format(Clamp(fl.times(fl.parse(pt.attrs[key]).value, m)))
  }

  /** pt with its coordinates rewritten. */
  function Rescaled(pt: Element, mx: real, my: real, fl: Floats): Element
    requires Readable(pt, fl)
  {
    pt.(attrs := pt.attrs["x" := NewCoordinate(pt, "x", mx, fl)]["y" := NewCoordinate(pt, "y", my, fl)])
  }

  /**
    The RelativeMove branch of `modify_onvif_request` on the document:
    Ok(None) when the document is left as it is (no PanTilt, or one without
    both coordinates), Ok(Some(d)) with the rewritten document, or the
    ValueError `float()` raises for an unreadable coordinate.
   */
  function RescalePanTilt(root: Element, mx: real, my: real, fl: Floats): (r: Result<Option<Element>>)
    ensures r == Ok(None) <==> PanTiltOf(root).None? || !HasCoordinates(At(root, PanTiltOf(root).value))
    ensures r.Raised? <==>
      && PanTiltOf(root).Some?
      && var pt := At(root, PanTiltOf(root).value);
         HasCoordinates(pt) && !Readable(pt, fl)
    ensures r.Raised? ==> r.error == ValueError
  {
    match PanTiltOf(root)
    case None => Ok(None)
    case Some(p) =>
      var pt := At(root, p);
      if !HasCoordinates(pt) then Ok(None)
      else if fl.parse(pt.attrs["x"]).None? then Raised(ValueError)
      else if fl.parse(pt.attrs["y"]).None? then Raised(ValueError)
      else Ok(Some(Replace(root, p, Rescaled(pt, mx, my, fl))))
  }

  /** d is root with only the node at p relabelled: its 'x' and 'y' set to the given texts. */
  ghost predicate SetsCoordinates(root: Element, d: Element, p: Path, xt: string, yt: string)
    requires IsPath(root, p)
  {
    && SameExceptLabelAt(root, d, p)
    && IsPath(d, p)
    && var pt := At(root, p);
       var pt' := At(d, p);
    && pt'.tag == pt.tag && pt'.text == pt.text && pt'.children == pt.children
    && pt'.attrs == pt.attrs["x" := xt]["y" := yt]
  }

  lemma SetCoordinates(root: Element, p: Path, xt: string, yt: string, d: Element)
    requires IsPath(root, p)
    requires var pt := At(root, p); d == Replace(root, p, pt.(attrs := pt.attrs["x" := xt]["y" := yt]))
    ensures SetsCoordinates(root, d, p, xt, yt)
  {
    var pt := At(root, p);
    EditLabel(root, p, pt.(attrs := pt.attrs["x" := xt]["y" := yt]));
  }

  /**
    A rewrite changes the attributes of the first PanTilt and nothing else:
    'x' and 'y' become the formatted clamped products, every other attribute,
    its tag, text and children and every other node of the document stay.
   */
  lemma RescaleEdits(root: Element, mx: real, my: real, fl: Floats)
    requires RescalePanTilt(root, mx, my, fl).Ok?
    requires RescalePanTilt(root, mx, my, fl).value.Some?
    ensures PanTiltOf(root).Some? && Readable(At(root, PanTiltOf(root).value), fl)
    ensures var p := PanTiltOf(root).value;
      var pt := At(root, p);
      SetsCoordinates(root, RescalePanTilt(root, mx, my, fl).value.value, p, NewCoordinate(pt, "x", mx, fl), NewCoordinate(pt, "y", my, fl))
  {
    var p := PanTiltOf(root).value;
    var pt := At(root, p);
    SetCoordinates(root, p, NewCoordinate(pt, "x", mx, fl), NewCoordinate(pt, "y", my, fl), RescalePanTilt(root, mx, my, fl).value.value);
  }

  /**
    With the way `:g` and `float()` behave, the rewritten coordinates read
    back as numbers in [-1, 1]: the camera is never sent an out-of-range move.
   */
  lemma RescaledInRange(root: Element, mx: real, my: real, fl: Floats)
    requires FormatIsStable(fl)
    requires RescalePanTilt(root, mx, my, fl).Ok?
    requires RescalePanTilt(root, mx, my, fl).value.Some?
    ensures PanTiltOf(root).Some?
    ensures var d := RescalePanTilt(root, mx, my, fl).value.value;
      var p := PanTiltOf(root).value;
      && IsPath(d, p) && Readable(At(d, p), fl)
      && -1.0 <= fl.parse(At(d, p).attrs["x"]).value <= 1.0
      && -1.0 <= fl.parse(At(d, p).attrs["y"]).value <= 1.0
  {
    RescaleEdits(root, mx, my, fl);
  }

  /**
    The rewritten document has its first PanTilt in the same place, so with
    unit multipliers a second pass writes the same coordinates again.
   */
  lemma RescaleIdempotentAtUnit(root: Element, fl: Floats)
    requires UnitIsNeutral(fl) && FormatIsStable(fl)
    requires RescalePanTilt(root, 1.0, 1.0, fl).Ok?
    requires RescalePanTilt(root, 1.0, 1.0, fl).value.Some?
    ensures var d := RescalePanTilt(root, 1.0, 1.0, fl).value.value;
      RescalePanTilt(d, 1.0, 1.0, fl) == Ok(Some(d))
  {
    var p := PanTiltOf(root).value;
    var pt := At(root, p);
    var v := Rescaled(pt, 1.0, 1.0, fl);
    var d := Replace(root, p, v);
    FindAfterReplace(root, 0, Tag(TT_PAN_TILT), p, v);
    assert PanTiltOf(d) == Some(p);
    ReplaceAt(root, p, v);
    assert At(d, p) == v;
    UnitRescaleFixed(pt, fl);
    ReplaceTwice(root, p, v, v);
  }

  /** With unit multipliers, a rewritten PanTilt is rewritten to itself. */
  lemma UnitRescaleFixed(pt: Element, fl: Floats)
    requires UnitIsNeutral(fl) && FormatIsStable(fl) && Readable(pt, fl)
    ensures Readable(Rescaled(pt, 1.0, 1.0, fl), fl)
    ensures Rescaled(Rescaled(pt, 1.0, 1.0, fl), 1.0, 1.0, fl) == Rescaled(pt, 1.0, 1.0, fl)
  {
    var v := Rescaled(pt, 1.0, 1.0, fl);
    var x := fl.parse(pt.attrs["x"]).value;
    var y := fl.parse(pt.attrs["y"]).value;
    assert v.attrs["x"] == fl.format(Clamp(x));
    assert v.attrs["y"] == fl.format(Clamp(y));
    assert Readable(v, fl);
  }

  /** What a request does to the camera's motion status. */
  datatype MotionEffect = NoChange | StartMoving | StopMoving

  /** The motion status after an effect, with the record's move timeout. */
  ghost function ApplyEffect(m: Motion, eff: MotionEffect, seconds: real): Motion
  {
    match eff
    case NoChange => m
    case StartMoving => AfterSetMoving(m, seconds)
    case StopMoving => AfterSetIdle(m)
  }

  /**
    `modify_onvif_request` on a parsed request: the document to forward (or
    the exception raised) and its effect on the motion status.
   */
  function Request(op: Operation, root: Element, mx: real, my: real, fl: Floats): (r: (Result<Element>, MotionEffect))
    ensures !op.RelativeMove? ==> r.0 == Ok(root)
    ensures r.1 == StopMoving <==> op.Stop?
    ensures r.1 == StartMoving <==> StartsMotion(op) || (op.RelativeMove? && r.0.Ok? && RescalePanTilt(root, mx, my, fl).Ok? && RescalePanTilt(root, mx, my, fl).value.Some?)
    ensures r.0.Raised? ==> op.RelativeMove? && r.1 == NoChange && r.0.error == ValueError
    ensures op.RelativeMove? && RescalePanTilt(root, mx, my, fl).Raised? ==> r.0 == Raised(RescalePanTilt(root, mx, my, fl).error)
    ensures op.RelativeMove? && RescalePanTilt(root, mx, my, fl) == Ok(None) ==> r.0 == Ok(root)
    ensures op.RelativeMove? && RescalePanTilt(root, mx, my, fl).Ok? && RescalePanTilt(root, mx, my, fl).value.Some? ==>
      r.0 == Ok(RescalePanTilt(root, mx, my, fl).value.value)
  {
    match op
    case RelativeMove =>
      (match RescalePanTilt(root, mx, my, fl)
       case Raised(e) => (Raised(e), NoChange)
       case Ok(None) => (Ok(root), NoChange)
       case Ok(Some(d)) => (Ok(d), StartMoving))
    case GoToPreset => (Ok(root), StartMoving)
    case ContinuousMove => (Ok(root), StartMoving)
    case AbsoluteMove => (Ok(root), StartMoving)
    case Stop => (Ok(root), StopMoving)
    case _ => (Ok(root), NoChange)
  }

  /** Every request keeps the motion record consistent. */
  lemma RequestKeepsConsistent(m: Motion, op: Operation, root: Element, mx: real, my: real, fl: Floats, seconds: real)
    requires Consistent(m)
    ensures Consistent(ApplyEffect(m, Request(op, root, mx, my, fl).1, seconds))
  {
    TransitionsKeepConsistent(m, seconds, 0);
  }

  /**
    A Translation with x="0.5", y="-1" and multipliers 0.8: x becomes the
    text for 0.4 and y the text for -0.8 (both float products are exact to
    the nearest double), a Speed PanTilt after it is untouched, and the
    request starts a motion.
   */
  lemma RelativeMoveExample(fl: Floats)
    requires fl.parse("0.5") == Some(0.5) && fl.parse("-1") == Some(-1.0)
    requires fl.times(0.5, 0.8) == 0.4 && fl.times(-1.0, 0.8) == -0.8
    ensures var pt := Element(TT_PAN_TILT, map["x" := "0.5", "y" := "-1"], None, []);
      var speed := Element(TT_PAN_TILT, map["x" := "1", "y" := "1"], None, []);
      var root := Element("Body", map[], None, [Element("Translation", map[], None, [pt]), Element("Speed", map[], None, [speed])]);
      var sent := Element("Body", map[], None, [
          Element("Translation", map[], None, [Element(TT_PAN_TILT, map["x" := fl.format(0.4), "y" := fl.format(-0.8)], None, [])]),
          Element("Speed", map[], None, [speed])]);
      && RescalePanTilt(root, 0.8, 0.8, fl) == Ok(Some(sent))
      && Request(RelativeMove, root, 0.8, 0.8, fl) == (Ok(sent), StartMoving)
  {
    var pt := Element(TT_PAN_TILT, map["x" := "0.5", "y" := "-1"], None, []);
    var speed := Element(TT_PAN_TILT, map["x" := "1", "y" := "1"], None, []);
    var s := Element("Speed", map[], None, [speed]);
    var root := Element("Body", map[], None, [Element("Translation", map[], None, [pt]), s]);
    FirstTranslationLocated(pt, s, root);
    assert Readable(pt, fl);
    var v := Element(TT_PAN_TILT, map["x" := fl.format(0.4), "y" := fl.format(-0.8)], None, []);
    assert NewCoordinate(pt, "x", 0.8, fl) == fl.format(0.4);
    assert NewCoordinate(pt, "y", 0.8, fl) == fl.format(-0.8);
    assert Rescaled(pt, 0.8, 0.8, fl) == v;
    FirstTranslationReplaced(pt, v, s, root);
  }

  /** In a Body whose first child is a Translation holding pt, pt is the first PanTilt. */
  lemma FirstTranslationLocated(pt: Element, s: Element, root: Element)
    requires pt.tag == TT_PAN_TILT
    requires root == Element("Body", map[], None, [Element("Translation", map[], None, [pt]), s])
    ensures PanTiltOf(root) == Some([0, 0]) && At(root, [0, 0]) == pt
  {
    var tr := Element("Translation", map[], None, [pt]);
    assert Matches(pt, Tag(TT_PAN_TILT));
    assert FindFrom(tr, 0, Tag(TT_PAN_TILT)) == Some([0]);
    assert [0] + [0] == [0, 0];
    assert FindFrom(root, 0, Tag(TT_PAN_TILT)) == Some([0, 0]);
  }

  /** Replacing that PanTilt by v changes the Translation and nothing else. */
  lemma FirstTranslationReplaced(pt: Element, v: Element, s: Element, root: Element)
    requires root == Element("Body", map[], None, [Element("Translation", map[], None, [pt]), s])
    ensures Replace(root, [0, 0], v) == Element("Body", map[], None, [Element("Translation", map[], None, [v]), s])
  {
    var tr := Element("Translation", map[], None, [pt]);
    var tr' := Element("Translation", map[], None, [v]);
    assert [0, 0][1..] == [0] && [0][1..] == [];
    assert Replace(tr, [0], v) == tr';
    assert Replace(root, [0, 0], v) == root.(children := root.children[0 := tr']);
    assert root.children[0 := tr'] == [tr', s];
  }

  /**
    The transformer with the camera's record: the request to forward, or
    the exception, with the motion status updated as the command demands.
   */
  method ModifyRequest(cfg: CameraConfig, op: Operation, root: Element, fl: Floats) returns (r: Result<Element>)
    requires cfg.Valid()
    modifies cfg`status, cfg`moveTimer, cfg`pending, cfg`nextTimerId
    ensures cfg.Valid()
    ensures var mx := Setting(cfg.xMultiplier, DefaultMultiplier);
      var my := Setting(cfg.yMultiplier, DefaultMultiplier);
      var (doc, eff) := Request(op, root, mx, my, fl);
      && r == doc
      && cfg.MotionState() == ApplyEffect(old(cfg.MotionState()), eff, Setting(cfg.moveTimeout, DefaultMoveTimeout))
  {
    var mx := Setting(cfg.xMultiplier, DefaultMultiplier);
    var my := Setting(cfg.yMultiplier, DefaultMultiplier);
    if op.RelativeMove? {
      var rescaled := RescalePanTilt(root, mx, my, fl);
      match rescaled {
        case Raised(e) =>
          r := Raised(e);
        case Ok(None) =>
          r := Ok(root);
        case Ok(Some(d)) =>
          cfg.SetMoving();
          r := Ok(d);
      }
    } else if StartsMotion(op) {
      cfg.SetMoving();
      r := Ok(root);
    } else if op.Stop? {
      cfg.SetIdle();
      r := Ok(root);
    } else {
      r := Ok(root);
    }
  }
}
