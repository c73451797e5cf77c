/** A form field that uses variable text: its packed field flags, its
    inheritable default appearance, justification and default value, and its
    local rich-text value and default style string. */
module VariableText {
  import opened Wrappers
  import opened JavaInt
  import opened Cos
  import opened FieldFlags

  /** The justification (quadding) values. */
  const QUADDING_LEFT: Int32 := 0
  const QUADDING_CENTERED: Int32 := 1
  const QUADDING_RIGHT: Int32 := 2

  /** A node of the field tree: its own dictionary, which the setters update
      in place, and a handle on its parent node (null at the root). The
      ghost depth and set of proper ancestors make the parent chain finite
      and give the inherited reads their frame. A parent is itself a
      `FieldNode`: all an ancestor contributes is its dictionary and its
      own parent. */
  class FieldNode {
    var dict: Dictionary
    const parent: FieldNode?
    ghost const depth: nat
    ghost const ProperAncestors: set<FieldNode>

    /** The parent chain is strictly shallower at every step and
        `ProperAncestors` holds exactly the nodes above this one. */
    ghost predicate Valid()
      decreases depth
    {
      if parent == null then
        ProperAncestors == {}
      else
        && parent.depth < depth
        && ProperAncestors == {parent} + parent.ProperAncestors
        && parent.Valid()
    }

    /** Wraps dictionary `d` as a field whose parent is `p`. */
    constructor (d: Dictionary, p: FieldNode?)
      requires p != null ==> p.Valid()
      ensures Valid() && dict == d && parent == p
      ensures ProperAncestors == if p == null then {} else {p} + p.ProperAncestors
    {
      dict := d;
      parent := p;
      depth := if p == null then 0 else p.depth + 1;
      ProperAncestors := if p == null then {} else {p} + p.ProperAncestors;
    }

    /** Every proper ancestor is shallower, so a node is never its own
        ancestor and a write to it is invisible to its ancestors. */
    lemma {:induction false} AncestorsAreShallower()
      requires Valid()
      ensures forall a :: a in ProperAncestors ==> a.depth < depth
      ensures this !in ProperAncestors
      decreases depth
    {
      if parent != null {
        parent.AncestorsAreShallower();
      }
    }

    /** The nodes from this one up to the root, nearest first. */
    ghost function Chain(): (c: seq<FieldNode>)
      requires Valid()
      ensures |c| >= 1 && c[0] == this
      decreases depth
    {
      if parent == null then [this] else [this] + parent.Chain()
    }

    // ---------------------------------------------------------------
    // Inheritance: the nearest node of the chain that has the entry wins.

    /** `getInheritableAttribute(key)`: the entry of the nearest node, from
        this one up, whose dictionary contains `key`; absent if none does. */
    function InheritableAttribute(key: Key): (r: Option<Value>)
      requires Valid()
      reads this, ProperAncestors
      ensures key in dict ==> r == Some(dict[key])
      ensures r.Some? ==> exists a :: a in {this} + ProperAncestors && key in a.dict && r.value == a.dict[key]
      decreases depth
    {
      if key in dict then Some(dict[key])
      else if parent == null then None
      else parent.InheritableAttribute(key)
    }

    /** The inherited read is absent exactly when no node of the chain has
        the entry. */
    lemma {:induction false} InheritedAbsentIffUndefined(key: Key)
      requires Valid()
      ensures InheritableAttribute(key) == None
              <==> forall i :: 0 <= i < |Chain()| ==> key !in Chain()[i].dict
      decreases depth
    {
      if key in dict {
        assert key in Chain()[0].dict;
      } else if parent != null {
        parent.InheritedAbsentIffUndefined(key);
        assert Chain() == [this] + parent.Chain();
        if forall i :: 0 <= i < |parent.Chain()| ==> key !in parent.Chain()[i].dict {
          forall i | 0 <= i < |Chain()| ensures key !in Chain()[i].dict {
            if i > 0 { assert Chain()[i] == parent.Chain()[i - 1]; }
          }
        } else {
          var i :| 0 <= i < |parent.Chain()| && key in parent.Chain()[i].dict;
          assert Chain()[i + 1] == parent.Chain()[i];
          assert InheritableAttribute(key) != None;
        }
      }
    }

    /** The inherited read is the entry of the nearest node that has it,
        whatever its value (a justification of 0 included). */
    lemma {:induction false} InheritedFromNearest(key: Key, i: nat)
      requires Valid()
      requires i < |Chain()| && key in Chain()[i].dict
      requires forall j :: 0 <= j < i ==> key !in Chain()[j].dict
      ensures InheritableAttribute(key) == Some(Chain()[i].dict[key])
      decreases depth
    {
      if i > 0 {
        var c, pc := Chain(), parent.Chain();
        assert c == [this] + pc;
        assert key !in c[0].dict;
        forall j | 0 <= j < i - 1 ensures key !in pc[j].dict {
          assert pc[j] == c[j + 1];
        }
        assert pc[i - 1] == c[i];
        parent.InheritedFromNearest(key, i - 1);
      }
    }

    // ---------------------------------------------------------------
    // Field flags (`Ff`): local, absent counts as 0.

    /** The flags word: `getInt(Ff, 0)` on this node's own dictionary. */
    function FlagsWord(): (ff: Int32)
      reads this
      ensures !(Ff in dict && dict[Ff].Int?) ==> ff == 0
      ensures Ff in dict && dict[Ff].Int? ==> (ff - dict[Ff].n) % TWO_32 == 0
    {
      GetInt(dict, Ff, 0)
    }

    /** `isMultiline()`, `isPassword()`, `isFileSelect()`,
        `doNotSpellCheck()`, `doNotScroll()`, `isComb()`, `isRichText()`. */
    function IsSet(f: Flag): (r: bool)
      reads this
      ensures !(Ff in dict && dict[Ff].Int?) ==> !r
      ensures Ff in dict && dict[Ff].Int? ==> r == Bit(dict[Ff].n, Position(f))
      ensures FlagsWord() == Mask(f) ==> r
    {
      MasksAreDistinctBits(f, f);
      if Ff in dict && dict[Ff].Int? then
        LowBitsAgree(FlagsWord(), dict[Ff].n, Position(f));
        Test(FlagsWord(), f)
      else
        Test(FlagsWord(), f)
    }

    /** `setMultiline(b)`, `setPassword(b)`, ... `setRichText(b)`: store the
        flags word with only the flag's bit changed. */
    method SetFlag(f: Flag, value: bool)
      modifies this
      ensures dict == old(dict)[Ff := Int(Set(old(FlagsWord()), f, value))]
      ensures IsSet(f) == value
      ensures forall g :: g != f ==> IsSet(g) == old(IsSet(g))
      ensures forall q: nat :: q != Position(f) ==> Bit(FlagsWord(), q) == Bit(old(FlagsWord()), q)
    {
      var flags := FlagsWord();
      dict := dict[Ff := Int(Set(flags, f, value))];
      forall g | g != f ensures IsSet(g) == old(IsSet(g)) {
        SetKeepsOtherFlags(flags, f, g, value);
      }
    }

    // ---------------------------------------------------------------
    // Default appearance (`DA`): inheritable, no default.

    /** `getDefaultAppearance()`: the inherited `DA` string, absent when no
        node has one; any other kind of value is a cast failure. */
    function GetDefaultAppearance(): (r: Result<Option<string>, Fault>)
      requires Valid()
      reads this, ProperAncestors
      ensures r.Err? ==> r.error == TypeMismatch
      ensures DA in dict ==> r == if dict[DA].Str? then Ok(Some(dict[DA].s)) else Err(TypeMismatch)
      ensures r.Ok? && r.value.Some? ==>
                exists a :: a in {this} + ProperAncestors && DA in a.dict && a.dict[DA] == Str(r.value.value)
    {
      match InheritableAttribute(DA)
      case None => Ok(None)
      case Some(Str(s)) => Ok(Some(s))
      case Some(_) => Err(TypeMismatch)
    }

    lemma DefaultAppearanceUndefined()
      requires Valid()
      requires forall i :: 0 <= i < |Chain()| ==> DA !in Chain()[i].dict
      ensures GetDefaultAppearance() == Ok(None)
    {
      InheritedAbsentIffUndefined(DA);
    }

    lemma DefaultAppearanceFromNearest(i: nat)
      requires Valid()
      requires i < |Chain()| && DA in Chain()[i].dict
      requires forall j :: 0 <= j < i ==> DA !in Chain()[j].dict
      ensures Chain()[i].dict[DA].Str? ==> GetDefaultAppearance() == Ok(Some(Chain()[i].dict[DA].s))
      ensures !Chain()[i].dict[DA].Str? ==> GetDefaultAppearance() == Err(TypeMismatch)
    {
      InheritedFromNearest(DA, i);
    }

    /** `setDefaultAppearance(s)`: a string sets the local `DA`, null removes
        it and uncovers what the ancestors define; no ancestor changes. */
    method SetDefaultAppearance(da: Option<string>)
      requires Valid()
      modifies this
      ensures da.Some? ==> dict == old(dict)[DA := Str(da.value)]
      ensures da.None? ==> dict == old(dict) - {DA}
      ensures forall a :: a in ProperAncestors ==> a.dict == old(a.dict)
      ensures da.Some? ==> GetDefaultAppearance() == Ok(Some(da.value))
      ensures da.None? && parent == null ==> GetDefaultAppearance() == Ok(None)
      ensures da.None? && parent != null ==>
                GetDefaultAppearance() == parent.GetDefaultAppearance() == old(parent.GetDefaultAppearance())
    {
      AncestorsAreShallower();
      if da.Some? {
        dict := dict[DA := Str(da.value)];
      } else {
        dict := dict - {DA};
      }
    }

    // ---------------------------------------------------------------
    // Default style string (`DS`): local, required when read.

    /** `getDefaultStyleString()`: the local `DS` string; absent is the
        null dereference, any other kind the cast failure. */
    function GetDefaultStyleString(): (r: Result<string, Fault>)
      reads this
      ensures r.Ok? <==> DS in dict && dict[DS].Str?
      ensures r.Ok? ==> dict[DS] == Str(r.value)
      ensures r == Err(MissingValue) <==> DS !in dict
      ensures DS in dict && !dict[DS].Str? ==> r == Err(TypeMismatch)
    {
      if DS !in dict then Err(MissingValue)
      else match dict[DS]
        case Str(s) => Ok(s)
        case _ => Err(TypeMismatch)
    }

    /** `setDefaultStyleString(s)`: a string sets the local `DS`, null
        removes it, after which reading it fails. */
    method SetDefaultStyleString(ds: Option<string>)
      modifies this
      ensures ds.Some? ==> dict == old(dict)[DS := Str(ds.value)]
      ensures ds.None? ==> dict == old(dict) - {DS}
      ensures GetDefaultStyleString() == if ds.Some? then Ok(ds.value) else Err(MissingValue)
    {
      if ds.Some? {
        dict := dict[DS := Str(ds.value)];
      } else {
        dict := dict - {DS};
      }
    }

    // ---------------------------------------------------------------
    // Justification (`Q`): inheritable, default 0.

    /** `getQ()`: the inherited `Q` number as a Java `int`, 0 when no node
        has one; any other kind of value is a cast failure. */
    function GetQ(): (r: Result<Int32, Fault>)
      requires Valid()
      reads this, ProperAncestors
      ensures r.Err? ==> r.error == TypeMismatch
      ensures Q in dict ==> r == if dict[Q].Int? then Ok(IntValue(dict[Q].n)) else Err(TypeMismatch)
      ensures r.Ok? && r.value != 0 ==>
                exists a :: a in {this} + ProperAncestors && Q in a.dict && a.dict[Q].Int?
                            && (r.value - a.dict[Q].n) % TWO_32 == 0
    {
      match InheritableAttribute(Q)
      case None => Ok(QUADDING_LEFT)
      case Some(Int(n)) => Ok(IntValue(n))
      case Some(_) => Err(TypeMismatch)
    }

    lemma QUndefined()
      requires Valid()
      requires forall i :: 0 <= i < |Chain()| ==> Q !in Chain()[i].dict
      ensures GetQ() == Ok(0)
    {
      InheritedAbsentIffUndefined(Q);
    }

    lemma QFromNearest(i: nat)
      requires Valid()
      requires i < |Chain()| && Q in Chain()[i].dict
      requires forall j :: 0 <= j < i ==> Q !in Chain()[j].dict
      ensures Chain()[i].dict[Q].Int? ==> GetQ() == Ok(IntValue(Chain()[i].dict[Q].n))
      ensures !Chain()[i].dict[Q].Int? ==> GetQ() == Err(TypeMismatch)
    {
      InheritedFromNearest(Q, i);
    }

    /** `setQ(q)`: store `q` locally, unchecked; no ancestor changes. */
    method SetQ(q: Int32)
      requires Valid()
      modifies this
      ensures dict == old(dict)[Q := Int(q)]
      ensures forall a :: a in ProperAncestors ==> a.dict == old(a.dict)
      ensures GetQ() == Ok(q)
      ensures parent != null ==> parent.GetQ() == old(parent.GetQ())
    {
      AncestorsAreShallower();
      dict := dict[Q := Int(q)];
    }

    // ---------------------------------------------------------------
    // Default value (`DV`): inheritable, no default; never settable.

    /** `getDefaultValue()`: the inherited `DV` object of any kind. */
    function GetDefaultValue(): (r: Option<Value>)
      requires Valid()
      reads this, ProperAncestors
      ensures DV in dict ==> r == Some(dict[DV])
      ensures r.Some? ==> exists a :: a in {this} + ProperAncestors && DV in a.dict && r.value == a.dict[DV]
    {
      InheritableAttribute(DV)
    }

    lemma DefaultValueUndefined()
      requires Valid()
      requires forall i :: 0 <= i < |Chain()| ==> DV !in Chain()[i].dict
      ensures GetDefaultValue() == None
    {
      InheritedAbsentIffUndefined(DV);
    }

    lemma DefaultValueFromNearest(i: nat)
      requires Valid()
      requires i < |Chain()| && DV in Chain()[i].dict
      requires forall j :: 0 <= j < i ==> DV !in Chain()[j].dict
      ensures GetDefaultValue() == Some(Chain()[i].dict[DV])
    {
      InheritedFromNearest(DV, i);
    }

    /** `setDefaultValue(v)`: text fields have no `DV` entry, so this fails
        for every argument, null included, and changes nothing. */
    method SetDefaultValue(value: Option<Value>) returns (r: Outcome<Fault>)
      ensures r == Fail(Unsupported)
    {
      r := Fail(Unsupported);
    }

    // ---------------------------------------------------------------
    // Rich text value (`RV`): local, empty string by default.

    /** `getRichTextValue()`: the local `RV` string, or "" when `RV` is
        absent or not a string. */
    function GetRichTextValue(): (r: string)
      reads this
      ensures RV in dict && dict[RV].Str? ==> dict[RV] == Str(r)
      ensures r != "" ==> RV in dict && dict[RV] == Str(r)
    {
      if RV in dict && dict[RV].Str? then dict[RV].s else ""
    }

    /** `setRichTextValue(s)`: a string sets the local `RV`, null removes it. */
    method SetRichTextValue(rv: Option<string>)
      modifies this
      ensures rv.Some? ==> dict == old(dict)[RV := Str(rv.value)]
      ensures rv.None? ==> dict == old(dict) - {RV} && RV !in dict
      ensures GetRichTextValue() == if rv.Some? then rv.value else ""
    {
      if rv.Some? {
        dict := dict[RV := Str(rv.value)];
      } else {
        dict := dict - {RV};
      }
    }
  }
}
