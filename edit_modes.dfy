/**
 * The integer edit-mode codes shared by the main window and the chart scenes
 * (stitch 10, colour 11, grid 12, position 13, angle 14, stretch 15; -1 for none),
 * and the six actions of the "Modes" menu that select them.
 */
module EditModes {

  /** The actions of the exclusive "Modes" action group, plus any other action. */
  datatype ModeAction =
    | StitchAction | ColorAction | GridAction | PositionAction | AngleAction | StretchAction
    | OtherAction

  const StitchMode: int := 10
  const ColorMode: int := 11
  const GridMode: int := 12
  const PositionMode: int := 13
  const AngleMode: int := 14
  const StretchMode: int := 15
  const NoMode: int := -1

  /** The mode actions in the order they are added to the action group. */
  const GroupActions: seq<ModeAction> :=
    [StitchAction, ColorAction, GridAction, PositionAction, AngleAction, StretchAction]

  /** The code `changeTabMode` hands to `setEditMode` for the triggered action. */
  function ModeCode(a: ModeAction): (code: int)
    ensures code == NoMode <==> a == OtherAction
    ensures a != OtherAction ==> StitchMode <= code <= StretchMode && GroupActions[code - StitchMode] == a
  {
    match a
    case StitchAction => StitchMode
    case ColorAction => ColorMode
    case GridAction => GridMode
    case PositionAction => PositionMode
    case AngleAction => AngleMode
    case StretchAction => StretchMode
    case OtherAction => NoMode
  }

  /** The action `setEditMode` checks for a code; OtherAction when it checks none. */
  function ActionForCode(code: int): (a: ModeAction)
    ensures a != OtherAction <==> StitchMode <= code <= StretchMode
    ensures a != OtherAction ==> ModeCode(a) == code && a == GroupActions[code - StitchMode]
  {
    if code == StitchMode then StitchAction
    else if code == ColorMode then ColorAction
    else if code == GridMode then GridAction
    else if code == PositionMode then PositionAction
    else if code == AngleMode then AngleAction
    else if code == StretchMode then StretchAction
    else OtherAction
  }

  /** Triggering a mode action and then setting the mode it yields checks that same action again. */
  lemma ModeCodeRoundTrip(a: ModeAction)
    ensures ActionForCode(ModeCode(a)) == a
  {
  }

  /** Distinct mode actions yield distinct codes. */
  lemma ModeCodeInjective(a: ModeAction, b: ModeAction)
    requires ModeCode(a) == ModeCode(b)
    ensures a == b
  {
    ModeCodeRoundTrip(a);
    ModeCodeRoundTrip(b);
  }
}
