/** Keyboard properties (Programs/kbd.c): the `type=...,vendor=...,product=...`
    description of a keyboard a driver or the user asks for, and the test of
    whether a keyboard has the properties required of it. */
module Kbd {
  import opened Common
  import opened Parse

  datatype KeyboardType = AnyType | PS2 | USB | Bluetooth

  datatype KeyboardProperties = KeyboardProperties(kind: KeyboardType, vendor: int, product: int)

  /** anyKeyboard: every field a wildcard. */
  const AnyKeyboard := KeyboardProperties(AnyType, 0, 0)

  /** The parameter names, and the type words in the order of `types`. */
  const PropertyNames: seq<string> := ["type", "vendor", "product"]
  const TypeChoices: seq<string> := ["any", "ps2", "usb", "bluetooth"]
  const Types: seq<KeyboardType> := [AnyType, PS2, USB, Bluetooth]

  /** What parseKeyboardProperties returns and leaves in `*properties`. */
  datatype Parsed = Parsed(ok: bool, props: KeyboardProperties)

  /** The fields applied one after the other from the parameter values: an
      empty value leaves its field at the default, an invalid one leaves it
      there too and clears `ok`, and the other fields are still applied. */
  function FromParameters(values: seq<string>): (r: Parsed)
    requires |values| == 3
  {
    var t := values[0];
    var tc := ValidateChoice(t, TypeChoices);
    var kind := if t != "" && tc.ok then Types[tc.value] else AnyType;
    var v := ValidateInteger(0, values[1], Some(0), Some(0xFFFF));
    var p := ValidateInteger(0, values[2], Some(0), Some(0xFFFF));
    Parsed((t == "" || tc.ok) && v.ok && p.ok,
           KeyboardProperties(kind, if values[1] != "" && v.ok then v.value else 0,
                              if values[2] != "" && p.ok then p.value else 0))
  }

  /** parseKeyboardProperties. */
  function ParseKeyboardProperties(s: Option<string>): (r: Parsed)
    ensures 0 <= r.props.vendor <= 0xFFFF && 0 <= r.props.product <= 0xFFFF
  {
    FromParameters(GetParameters(Some(PropertyNames), None, s))
  }

  /** checkKeyboardProperties: no requirement is met by every keyboard, a
      missing keyboard counts as anyKeyboard, and each required field that
      is not a wildcard must equal the keyboard's. */
  function CheckKeyboardProperties(actual: Option<KeyboardProperties>, required: Option<KeyboardProperties>): bool
  {
    if required.None? then true
    else
      var a := if actual.None? then AnyKeyboard else actual.value;
      var q := required.value;
      && (q.kind == AnyType || q.kind == a.kind)
      && (q.vendor == 0 || q.vendor == a.vendor)
      && (q.product == 0 || q.product == a.product)
  }

  /** A keyboard has the properties it has; anyKeyboard, as a requirement,
      is met by every keyboard, and as the keyboard only meets requirements
      that are wildcards throughout. */
  lemma CheckWildcards(p: KeyboardProperties, actual: Option<KeyboardProperties>)
    ensures CheckKeyboardProperties(Some(p), Some(p))
    ensures CheckKeyboardProperties(actual, Some(AnyKeyboard))
    ensures CheckKeyboardProperties(None, Some(p)) <==> p.kind == AnyType && p.vendor == 0 && p.product == 0
  {
  }

  /** Loosening a requirement (turning a field into a wildcard) keeps every
      keyboard that met it. */
  lemma LoosenedRequirement(actual: Option<KeyboardProperties>, q: KeyboardProperties)
    requires CheckKeyboardProperties(actual, Some(q))
    ensures CheckKeyboardProperties(actual, Some(q.(kind := AnyType)))
    ensures CheckKeyboardProperties(actual, Some(q.(vendor := 0)))
    ensures CheckKeyboardProperties(actual, Some(q.(product := 0)))
  {
  }

  /** No description, or an empty one, describes anyKeyboard. */
  lemma EmptyDescription()
    ensures ParseKeyboardProperties(None) == Parsed(true, AnyKeyboard)
    ensures ParseKeyboardProperties(Some("")) == Parsed(true, AnyKeyboard)
  {
    NoParametersAllEmpty(PropertyNames, None);
  }

  function TypeName(t: KeyboardType): string
  {
    match t
    case AnyType => "any"
    case PS2 => "ps2"
    case USB => "usb"
    case Bluetooth => "bluetooth"
  }

  /** The description of a keyboard, as a user would write it. */
  function Describe(p: KeyboardProperties): string
  {
    "type=" + TypeName(p.kind) + ",vendor=" + DecimalText(p.vendor) + ",product=" + DecimalText(p.product)
  }

  /** Each type word selects its own type. */
  lemma TypeWordRoundTrip(t: KeyboardType)
    ensures ValidateChoice(TypeName(t), TypeChoices) == Validated(true, IndexOfType(t))
    ensures Types[IndexOfType(t)] == t
  {
    var w := TypeName(t);
    assert IsPrefixIgnoringCase(w, w);
    forall k | 0 <= k < IndexOfType(t) ensures !IsPrefixIgnoringCase(w, TypeChoices[k]) {
      assert ToLower(w[0]) != ToLower(TypeChoices[k][0]);
    }
  }

  function IndexOfType(t: KeyboardType): (i: nat)
    ensures i < 4 && TypeChoices[i] == TypeName(t)
  {
    match t
    case AnyType => 0
    case PS2 => 1
    case USB => 2
    case Bluetooth => 3
  }

  /** Describing a keyboard whose codes fit in 16 bits and parsing the
      description gives the keyboard back. */
  lemma DescribeRoundTrip(p: KeyboardProperties)
    requires 0 <= p.vendor <= 0xFFFF && 0 <= p.product <= 0xFFFF
    ensures ParseKeyboardProperties(Some(Describe(p))) == Parsed(true, p)
  {
    DescribeValues(p);
    TypeWordRoundTrip(p.kind);
    IntegerRoundTrip(p.vendor);
    IntegerRoundTrip(p.product);
    assert DecimalText(p.vendor) != "" && DecimalText(p.product) != "";
  }

  /** The description gives each parameter its word. */
  lemma DescribeValues(p: KeyboardProperties)
    ensures GetParameters(Some(PropertyNames), None, Some(Describe(p)))
         == [TypeName(p.kind), DecimalText(p.vendor), DecimalText(p.product)]
  {
    DescriptionPieces(p);
    DescriptionItems(TypeName(p.kind), DecimalText(p.vendor), DecimalText(p.product));
  }

  /** The description splits into its three items. */
  lemma DescriptionPieces(p: KeyboardProperties)
    ensures Pieces(Describe(p), ',') ==
      ["type=" + TypeName(p.kind), "vendor=" + DecimalText(p.vendor), "product=" + DecimalText(p.product)]
  {
    var items := ["type=" + TypeName(p.kind), "vendor=" + DecimalText(p.vendor), "product=" + DecimalText(p.product)];
    NoCommaInDecimal(p.vendor);
    NoCommaInDecimal(p.product);
    assert ',' !in TypeName(p.kind);
    assert JoinWith(items, ',') == Describe(p) by {
      assert items[1..][1..] == [items[2]];
      assert JoinWith(items[1..], ',') == items[1] + [','] + items[2];
      assert ",vendor=" == [','] + "vendor=" && ",product=" == [','] + "product=";
    }
    JoinPieces(items, ',');
  }

  lemma NoCommaInDecimal(n: int)
    ensures ',' !in DecimalText(n) && '=' !in DecimalText(n)
  {
    var ds := DecimalDigits(if n < 0 then -n else n);
    assert forall i :: 0 <= i < |ds| ==> ds[i] != ',' && ds[i] != '=';
  }

  /** The three property names resolve to themselves. */
  lemma PropertyNamesResolve()
    ensures FirstPrefix("type", PropertyNames) == Some(0)
    ensures FirstPrefix("vendor", PropertyNames) == Some(1)
    ensures FirstPrefix("product", PropertyNames) == Some(2)
  {
    assert IsPrefixIgnoringCase("type", "type");
    assert !IsPrefixIgnoringCase("vendor", "type") by { assert ToLower("vendor"[0]) != ToLower("type"[0]); }
    assert IsPrefixIgnoringCase("vendor", "vendor");
    assert !IsPrefixIgnoringCase("product", "type") by { assert ToLower("product"[0]) != ToLower("type"[0]); }
    assert !IsPrefixIgnoringCase("product", "vendor") by { assert ToLower("product"[0]) != ToLower("vendor"[0]); }
    assert IsPrefixIgnoringCase("product", "product");
  }

  /** Two items applied one after the other. */
  lemma ApplyTwo(values: seq<string>, names: seq<string>, a: string, b: string)
    requires |values| == |names|
    ensures ApplyItems(values, names, None, [a, b]) == ApplyItem(ApplyItem(values, names, None, a), names, None, b)
  {
    assert [a, b][..1] == [a] && [a][..0] == [];
    assert ApplyItems(values, names, None, [a]) == ApplyItem(values, names, None, a);
  }

  /** Three items applied one after the other. */
  lemma ApplyThree(values: seq<string>, names: seq<string>, a: string, b: string, c: string)
    requires |values| == |names|
    ensures ApplyItems(values, names, None, [a, b, c])
         == ApplyItem(ApplyItem(ApplyItem(values, names, None, a), names, None, b), names, None, c)
  {
    assert [a, b, c][..2] == [a, b];
    ApplyTwo(values, names, a, b);
  }

  /** The three items set the three parameters. */
  lemma DescriptionItems(tw: string, vw: string, pw: string)
    ensures ApplyItems(seq(3, _ => ""), PropertyNames, None, ["type=" + tw, "vendor=" + vw, "product=" + pw]) == [tw, vw, pw]
  {
    var empty: seq<string> := seq(3, _ => "");
    assert "type=" + tw == "type" + "=" + tw;
    assert "vendor=" + vw == "vendor" + "=" + vw;
    assert "product=" + pw == "product" + "=" + pw;
    ApplyThree(empty, PropertyNames, "type=" + tw, "vendor=" + vw, "product=" + pw);
    SetsParameter(empty, "type", tw, 0);
    assert empty[0 := tw] == [tw, "", ""];
    SetsParameter([tw, "", ""], "vendor", vw, 1);
    assert [tw, "", ""][1 := vw] == [tw, vw, ""];
    SetsParameter([tw, vw, ""], "product", pw, 2);
    assert [tw, vw, ""][2 := pw] == [tw, vw, pw];
  }

  /** One item sets the parameter its name spells out in full. */
  lemma SetsParameter(values: seq<string>, name: string, value: string, k: nat)
    requires |values| == 3 && k < 3 && name == PropertyNames[k]
    ensures ApplyItem(values, PropertyNames, None, name + "=" + value) == values[k := value]
  {
    PropertyNamesResolve();
    ItemSets(values, PropertyNames, None, name, value, k);
  }

  /** A type word that names no type is refused while the vendor given with
      it is still applied. */
  lemma BadTypeKeepsVendor(word: string, vendor: int)
    requires 0 <= vendor <= 0xFFFF && word != "" && ',' !in word
    requires !ValidateChoice(word, TypeChoices).ok
    ensures ParseKeyboardProperties(Some("type=" + word + ",vendor=" + DecimalText(vendor)))
         == Parsed(false, AnyKeyboard.(vendor := vendor))
  {
    NoCommaInDecimal(vendor);
    TwoItemValues(word, DecimalText(vendor));
    IntegerRoundTrip(vendor);
  }

  /** "type=t,vendor=v" sets the type and vendor parameters. */
  lemma TwoItemValues(word: string, vw: string)
    requires ',' !in word && ',' !in vw
    ensures GetParameters(Some(PropertyNames), None, Some("type=" + word + ",vendor=" + vw)) == [word, vw, ""]
  {
    var items := ["type=" + word, "vendor=" + vw];
    assert JoinWith(items, ',') == "type=" + word + ",vendor=" + vw by {
      assert items[1..] == [items[1]];
      assert ",vendor=" == [','] + "vendor=";
    }
    JoinPieces(items, ',');
    TwoItems(word, vw);
  }

  lemma TwoItems(word: string, vw: string)
    ensures ApplyItems(seq(3, _ => ""), PropertyNames, None, ["type=" + word, "vendor=" + vw]) == [word, vw, ""]
  {
    var empty: seq<string> := seq(3, _ => "");
    assert "type=" + word == "type" + "=" + word;
    assert "vendor=" + vw == "vendor" + "=" + vw;
    ApplyTwo(empty, PropertyNames, "type=" + word, "vendor=" + vw);
    SetsParameter(empty, "type", word, 0);
    assert empty[0 := word] == [word, "", ""];
    SetsParameter([word, "", ""], "vendor", vw, 1);
    assert [word, "", ""][1 := vw] == [word, vw, ""];
  }
}
