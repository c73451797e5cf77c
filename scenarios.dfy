/** Small client programs over the field model, each stating its outcome
    in its postcondition. */
module Scenarios {
  import opened Wrappers
  import opened JavaInt
  import opened Cos
  import opened FieldFlags
  import opened VariableText

  /** Root A justifies right; child B inherits that, overrides it with
      "centered" without touching A, and inherits again once B's own `Q`
      entry is removed from its dictionary. */
  method JustificationInheritance()
    returns (inherited: Result<Int32, Fault>, overridden: Result<Int32, Fault>,
             root: Result<Int32, Fault>, uncovered: Result<Int32, Fault>)
    ensures inherited == Ok(QUADDING_RIGHT) && overridden == Ok(QUADDING_CENTERED)
    ensures root == Ok(QUADDING_RIGHT) && uncovered == Ok(QUADDING_RIGHT)
  {
    var a := new FieldNode(map[], null);
    a.SetQ(QUADDING_RIGHT);
    var b := new FieldNode(map[], a);
    inherited := b.GetQ();
    b.SetQ(QUADDING_CENTERED);
    overridden := b.GetQ();
    root := a.GetQ();
    b.dict := b.dict - {Q};
    uncovered := b.GetQ();
  }

  /** A justification of 0 on the parent shadows the grandparent's 2: the
      nearest entry wins because it is present, not because it is non-zero. */
  method ZeroJustificationShadows() returns (q: Result<Int32, Fault>)
    ensures q == Ok(QUADDING_LEFT)
  {
    var root := new FieldNode(map[Q := Int(2)], null);
    var middle := new FieldNode(map[Q := Int(0)], root);
    var leaf := new FieldNode(map[], middle);
    assert middle.InheritableAttribute(Q) == Some(Int(0));
    q := leaf.GetQ();
  }

  /** From no flags, setting comb stores exactly `1 << 24`; setting
      multiline as well stores `(1 << 24) | (1 << 12)` and comb stays set. */
  method CombThenMultiline()
    returns (combBefore: bool, afterComb: Value, afterBoth: Value, combAfter: bool)
    ensures !combBefore && combAfter
    ensures afterComb == Int(0x100_0000) && afterBoth == Int(0x100_1000)
  {
    var field := new FieldNode(map[], null);
    ZeroHasNoBits(Position(Comb));
    combBefore := field.IsSet(Comb);
    field.SetFlag(Comb, true);
    afterComb := field.dict[Ff];
    Pow2Values();
    BitsOfPower(Position(Comb), Position(Multiline));
    field.SetFlag(Multiline, true);
    afterBoth := field.dict[Ff];
    combAfter := field.IsSet(Comb);
  }

  /** A local default appearance hides the parent's; removing it (null)
      makes the parent's visible again. */
  method DefaultAppearanceOverride()
    returns (local: Result<Option<string>, Fault>, uncovered: Result<Option<string>, Fault>)
    ensures local == Ok(Some("/Cour 10 Tf 0 g"))
    ensures uncovered == Ok(Some("/Helv 0 Tf 0 g"))
  {
    var form := new FieldNode(map[DA := Str("/Helv 0 Tf 0 g")], null);
    var field := new FieldNode(map[], form);
    field.SetDefaultAppearance(Some("/Cour 10 Tf 0 g"));
    local := field.GetDefaultAppearance();
    field.SetDefaultAppearance(None);
    uncovered := field.GetDefaultAppearance();
  }

  /** Without a string `RV` the rich text value reads as "", while reading
      a missing default style string fails. */
  method LocalDefaults(d: Dictionary) returns (rv: string, ds: Result<string, Fault>)
    requires RV !in d || !d[RV].Str?
    requires DS !in d
    ensures rv == "" && ds == Err(MissingValue)
  {
    var field := new FieldNode(d, null);
    rv := field.GetRichTextValue();
    ds := field.GetDefaultStyleString();
  }

  /** A default style string entry that is not a string is a cast failure,
      not a missing value. */
  method DefaultStyleOfOtherKind(d: Dictionary) returns (ds: Result<string, Fault>)
    requires DS in d && !d[DS].Str?
    ensures ds == Err(TypeMismatch)
  {
    var field := new FieldNode(d, null);
    ds := field.GetDefaultStyleString();
  }
}
