/** The structural comparison of two JSON documents
    (internal/service/diff.go:27-33 and 112-228): equal subtrees are
    skipped, a change of dynamic type or of a scalar is one "modify", objects
    are walked over the sorted union of their keys and arrays index by index.
    The label of an array index is a parameter, so that the spelling the
    source writes and the decimal spelling it means can both be stated. */
module JsonDiff {
  import opened Wrappers
  import opened Text
  import opened JsonValue
  import GoInt

  datatype Kind = Add | Remove | Modify

  /** JSONDiff; an absent value is the omitted field. */
  datatype Change = Change(path: string, kind: Kind, oldValue: Option<Json>, newValue: Option<Json>)

  function ItemPath(path: string, spell: int -> string, i: int): string {
    path + "[" + spell(i) + "]"
  }

  /** compareJSON, with `spell` spelling array indexes. */
  function Compare(path: string, a: Json, b: Json, spell: int -> string): (r: seq<Change>)
    decreases Size(a) + Size(b), 1
  {
    if a == b then []
    else if !SameType(a, b) then [Change(path, Modify, Some(a), Some(b))]
    else if a.Obj? && b.Obj? then CompareFields(path, a.fields, b.fields, spell)
    else if a.Arr? && b.Arr? then CompareItems(path, a.items, b.items, 0, spell)
    else [Change(path, Modify, Some(a), Some(b))]
  }

  /** The walk over the sorted union of two objects' keys (both field lists
      ascending): a key only on the old side is removed, only on the new
      side added, on both compared. */
  function CompareFields(path: string, fa: seq<Field>, fb: seq<Field>, spell: int -> string): (r: seq<Change>)
    decreases SizeFields(fa) + SizeFields(fb), 0
  {
    if |fa| == 0 && |fb| == 0 then []
    else if |fa| == 0 || (|fb| > 0 && Less(fb[0].key, fa[0].key)) then
      [Change(MemberPath(path, fb[0].key), Add, None, Some(fb[0].value))] + CompareFields(path, fa, fb[1..], spell)
    else if |fb| == 0 || Less(fa[0].key, fb[0].key) then
      [Change(MemberPath(path, fa[0].key), Remove, Some(fa[0].value), None)] + CompareFields(path, fa[1..], fb, spell)
    else
      Compare(MemberPath(path, fa[0].key), fa[0].value, fb[0].value, spell)
      + CompareFields(path, fa[1..], fb[1..], spell)
  }

  /** The index walk from position i over the remaining items of both
      arrays, to the longer one's end. */
  function CompareItems(path: string, xa: seq<Json>, xb: seq<Json>, i: int, spell: int -> string): (r: seq<Change>)
    decreases SizeItems(xa) + SizeItems(xb), 0
  {
    if |xa| == 0 && |xb| == 0 then []
    else if |xa| == 0 then
      [Change(ItemPath(path, spell, i), Add, None, Some(xb[0]))] + CompareItems(path, xa, xb[1..], i + 1, spell)
    else if |xb| == 0 then
      [Change(ItemPath(path, spell, i), Remove, Some(xa[0]), None)] + CompareItems(path, xa[1..], xb, i + 1, spell)
    else
      Compare(ItemPath(path, spell, i), xa[0], xb[0], spell) + CompareItems(path, xa[1..], xb[1..], i + 1, spell)
  }

  // ---------------------------------------------------------------------------
  // Index labels
  // ---------------------------------------------------------------------------

  /** The label as written: `string(rune('0' + i))`. */
  function IndexLabelAsWritten(i: int): string {
    GoInt.RuneString(GoInt.Wrap64('0' as int + i))
  }

  /** The label evidently meant: the index in decimal. */
  function IndexLabel(i: int): (s: string)
    ensures i >= 0 ==> AllDigits(s) && DigitsValue(s) == i
  {
    DecimalRoundTrip(if i >= 0 then i else 0);
    IntToDecimal(i)
  }

  /** Decimal labels name distinct indexes distinctly. */
  lemma IndexLabelInjective(i: nat, j: nat)
    requires IndexLabel(i) == IndexLabel(j)
    ensures i == j
  {
  }

  /** The two labels agree on the first ten indexes only. */
  lemma IndexLabelsAgreeBelowTen(i: int)
    requires 0 <= i < 10
    ensures IndexLabelAsWritten(i) == IndexLabel(i)
  {
  }

  /** An array that grows from ten to eleven items: the added item's path is
      "[:]" as written, "[10]" as meant. */
  lemma EleventhItemPath(xs: seq<Json>, x: Json)
    requires |xs| == 10
    ensures Compare("", Arr(xs), Arr(xs + [x]), IndexLabelAsWritten) == [Change("[:]", Add, None, Some(x))]
    ensures Compare("", Arr(xs), Arr(xs + [x]), IndexLabel) == [Change("[10]", Add, None, Some(x))]
  {
    AppendedItems("", xs, [x], 0, IndexLabelAsWritten);
    AppendedItems("", xs, [x], 0, IndexLabel);
    assert Arr(xs) != Arr(xs + [x]) by { assert |xs| != |xs + [x]|; }
    var r := IndexLabelAsWritten(10);
    assert r[0] == ':' && |r| == 1;
    assert r == ":";
    assert ItemPath("", IndexLabelAsWritten, 10) == "[:]";
    assert NatToDecimal(10) == "10";
    assert ItemPath("", IndexLabel, 10) == "[10]";
  }

  /** Items appended after an unchanged prefix are reported as additions at
      their own indexes. */
  lemma {:induction false} AppendedItems(path: string, xs: seq<Json>, ys: seq<Json>, i: int, spell: int -> string)
    requires |ys| == 1
    ensures CompareItems(path, xs, xs + ys, i, spell) == [Change(ItemPath(path, spell, i + |xs|), Add, None, Some(ys[0]))]
    decreases |xs|
  {
    if |xs| == 0 {
      assert xs + ys == ys;
      assert ys[1..] == [];
    } else {
      assert (xs + ys)[1..] == xs[1..] + ys;
      AppendedItems(path, xs[1..], ys, i + 1, spell);
    }
  }

  // ---------------------------------------------------------------------------
  // Properties
  // ---------------------------------------------------------------------------

  /** No changes exactly when the documents are equal (reflect.DeepEqual). */
  lemma {:induction false} CompareEmptyIffEqual(path: string, a: Json, b: Json, spell: int -> string)
    requires WellFormed(a) && WellFormed(b)
    ensures Compare(path, a, b, spell) == [] <==> a == b
    decreases Size(a) + Size(b), 1
  {
    if a != b && SameType(a, b) {
      SameTypeIsSameConstructor(a, b);
      if a.Obj? {
        CompareFieldsEmptyIffEqual(path, a.fields, b.fields, spell);
      } else if a.Arr? {
        CompareItemsEmptyIffEqual(path, a.items, b.items, 0, spell);
      }
    }
  }

  lemma {:induction false} CompareFieldsEmptyIffEqual(path: string, fa: seq<Field>, fb: seq<Field>, spell: int -> string)
    requires WellFormedFields(fa) && WellFormedFields(fb)
    ensures CompareFields(path, fa, fb, spell) == [] <==> fa == fb
    decreases SizeFields(fa) + SizeFields(fb), 0
  {
    if |fa| > 0 && |fb| > 0 && !Less(fb[0].key, fa[0].key) && !Less(fa[0].key, fb[0].key) {
      LessTotal(fa[0].key, fb[0].key);
      var p := MemberPath(path, fa[0].key);
      CompareEmptyIffEqual(p, fa[0].value, fb[0].value, spell);
      AscendingTail(fa);
      AscendingTail(fb);
      CompareFieldsEmptyIffEqual(path, fa[1..], fb[1..], spell);
      assert fa == [fa[0]] + fa[1..];
      assert fb == [fb[0]] + fb[1..];
      if fa == fb {
        assert fa[1..] == fb[1..];
      }
    } else if |fa| > 0 && |fb| > 0 {
      if fa == fb { LessIrreflexive(fa[0].key); }
    }
  }

  lemma {:induction false} CompareItemsEmptyIffEqual(path: string, xa: seq<Json>, xb: seq<Json>, i: int, spell: int -> string)
    requires forall k :: 0 <= k < |xa| ==> WellFormed(xa[k])
    requires forall k :: 0 <= k < |xb| ==> WellFormed(xb[k])
    ensures CompareItems(path, xa, xb, i, spell) == [] <==> xa == xb
    decreases SizeItems(xa) + SizeItems(xb), 0
  {
    if |xa| > 0 && |xb| > 0 {
      CompareEmptyIffEqual(ItemPath(path, spell, i), xa[0], xb[0], spell);
      CompareItemsEmptyIffEqual(path, xa[1..], xb[1..], i + 1, spell);
      assert xa == [xa[0]] + xa[1..];
      assert xb == [xb[0]] + xb[1..];
      if xa == xb {
        assert xa[1..] == xb[1..];
      }
    }
  }

  /** A change read in the other direction: additions and removals trade
      places and the two values swap. */
  function Flip(c: Change): Change {
    Change(c.path, match c.kind case Add => Remove case Remove => Add case Modify => Modify,
           c.newValue, c.oldValue)
  }

  function FlipAll(cs: seq<Change>): (r: seq<Change>)
    ensures |r| == |cs|
    ensures forall k :: 0 <= k < |cs| ==> r[k] == Flip(cs[k])
  {
    seq(|cs|, k requires 0 <= k < |cs| => Flip(cs[k]))
  }

  lemma FlipAllAppend(xs: seq<Change>, ys: seq<Change>)
    ensures FlipAll(xs + ys) == FlipAll(xs) + FlipAll(ys)
  {
  }

  /** Comparing the other way round reports the same changes, flipped. */
  lemma {:induction false} CompareSwap(path: string, a: Json, b: Json, spell: int -> string)
    ensures Compare(path, b, a, spell) == FlipAll(Compare(path, a, b, spell))
    decreases Size(a) + Size(b), 1
  {
    if a != b && SameType(a, b) {
      SameTypeIsSameConstructor(a, b);
      if a.Obj? {
        CompareFieldsSwap(path, a.fields, b.fields, spell);
      } else if a.Arr? {
        CompareItemsSwap(path, a.items, b.items, 0, spell);
      }
    }
  }

  lemma {:induction false} CompareFieldsSwap(path: string, fa: seq<Field>, fb: seq<Field>, spell: int -> string)
    ensures CompareFields(path, fb, fa, spell) == FlipAll(CompareFields(path, fa, fb, spell))
    decreases SizeFields(fa) + SizeFields(fb), 0
  {
    if |fa| == 0 && |fb| == 0 {
    } else if |fa| == 0 || (|fb| > 0 && Less(fb[0].key, fa[0].key)) {
      var c := OnlyNewStep(path, fa, fb, spell);
      CompareFieldsSwap(path, fa, fb[1..], spell);
      FlipAllAppend([c], CompareFields(path, fa, fb[1..], spell));
    } else if |fb| == 0 || Less(fa[0].key, fb[0].key) {
      var c := OnlyNewStep(path, fb, fa, spell);
      CompareFieldsSwap(path, fa[1..], fb, spell);
      FlipAllAppend([Flip(c)], CompareFields(path, fa[1..], fb, spell));
    } else {
      LessTotal(fa[0].key, fb[0].key);
      BothStep(path, fa, fb, spell);
      CompareSwap(MemberPath(path, fa[0].key), fa[0].value, fb[0].value, spell);
      CompareFieldsSwap(path, fa[1..], fb[1..], spell);
      FlipAllAppend(Compare(MemberPath(path, fa[0].key), fa[0].value, fb[0].value, spell),
                    CompareFields(path, fa[1..], fb[1..], spell));
    }
  }

  /** A first key only on the new side: compared one way it is added, the
      other way removed, and each walk goes on without it. */
  lemma OnlyNewStep(path: string, fa: seq<Field>, fb: seq<Field>, spell: int -> string) returns (c: Change)
    requires |fb| > 0 && (|fa| == 0 || Less(fb[0].key, fa[0].key))
    ensures c == Change(MemberPath(path, fb[0].key), Add, None, Some(fb[0].value))
    ensures CompareFields(path, fa, fb, spell) == [c] + CompareFields(path, fa, fb[1..], spell)
    ensures CompareFields(path, fb, fa, spell) == [Flip(c)] + CompareFields(path, fb[1..], fa, spell)
  {
    if |fa| > 0 { LessAsymmetric(fb[0].key, fa[0].key); }
    c := Change(MemberPath(path, fb[0].key), Add, None, Some(fb[0].value));
  }

  /** A first key on both sides: its values are compared, both ways round. */
  lemma BothStep(path: string, fa: seq<Field>, fb: seq<Field>, spell: int -> string)
    requires |fa| > 0 && |fb| > 0 && fa[0].key == fb[0].key
    ensures CompareFields(path, fa, fb, spell)
      == Compare(MemberPath(path, fa[0].key), fa[0].value, fb[0].value, spell) + CompareFields(path, fa[1..], fb[1..], spell)
    ensures CompareFields(path, fb, fa, spell)
      == Compare(MemberPath(path, fa[0].key), fb[0].value, fa[0].value, spell) + CompareFields(path, fb[1..], fa[1..], spell)
  {
    LessIrreflexive(fa[0].key);
  }

  lemma {:induction false} CompareItemsSwap(path: string, xa: seq<Json>, xb: seq<Json>, i: int, spell: int -> string)
    ensures CompareItems(path, xb, xa, i, spell) == FlipAll(CompareItems(path, xa, xb, i, spell))
    decreases SizeItems(xa) + SizeItems(xb), 0
  {
    if |xa| == 0 && |xb| == 0 {
    } else if |xa| == 0 {
      CompareItemsSwap(path, xa, xb[1..], i + 1, spell);
      FlipAllAppend([Change(ItemPath(path, spell, i), Add, None, Some(xb[0]))], CompareItems(path, xa, xb[1..], i + 1, spell));
    } else if |xb| == 0 {
      CompareItemsSwap(path, xa[1..], xb, i + 1, spell);
      FlipAllAppend([Change(ItemPath(path, spell, i), Remove, Some(xa[0]), None)], CompareItems(path, xa[1..], xb, i + 1, spell));
    } else {
      CompareSwap(ItemPath(path, spell, i), xa[0], xb[0], spell);
      CompareItemsSwap(path, xa[1..], xb[1..], i + 1, spell);
      FlipAllAppend(Compare(ItemPath(path, spell, i), xa[0], xb[0], spell),
                    CompareItems(path, xa[1..], xb[1..], i + 1, spell));
    }
  }

  /** DiffJSON: both texts must decode (None carries the decoder's error);
      paths start at the root, and array items are labelled as the code
      spells them, one rune past '0'. */
  function DiffJson(lib: Library, oldJson: string, newJson: string): (r: Option<seq<Change>>)
    ensures r.Some? <==> lib.parse(oldJson).Some? && lib.parse(newJson).Some?
    ensures r.Some? ==> (r.value == [] <==> lib.parse(oldJson) == lib.parse(newJson))
  {
    match (lib.parse(oldJson), lib.parse(newJson))
    case (Some(a), Some(b)) =>
      CompareEmptyIffEqual("", a, b, IndexLabelAsWritten);
      Some(Compare("", a, b, IndexLabelAsWritten))
    case _ => None
  }

  /** Swapping the two texts flips every reported change. */
  lemma DiffJsonSwap(lib: Library, oldJson: string, newJson: string)
    requires DiffJson(lib, oldJson, newJson).Some?
    ensures DiffJson(lib, newJson, oldJson) == Some(FlipAll(DiffJson(lib, oldJson, newJson).value))
  {
    CompareSwap("", lib.parse(oldJson).value, lib.parse(newJson).value, IndexLabelAsWritten);
  }

  /** Through the handler as well: a text whose array grows from ten items
      to eleven reports the addition at "[:]". */
  lemma DiffJsonEleventhItem(lib: Library, oldJson: string, newJson: string, xs: seq<Json>, x: Json)
    requires |xs| == 10
    requires lib.parse(oldJson) == Some(Arr(xs)) && lib.parse(newJson) == Some(Arr(xs + [x]))
    ensures DiffJson(lib, oldJson, newJson) == Some([Change("[:]", Add, None, Some(x))])
  {
    EleventhItemPath(xs, x);
  }
}
