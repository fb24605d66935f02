/** The parsed slide XML of a PowerPoint deck, as the XML parser hands it over, and the
    two recursive walks over it: collecting text runs and finding image references. */
module PptxXml {
  import opened Results

  /** A parsed XML value: a string, an array of values (repeated child elements) or an
      object whose properties are listed in key order (element names, `$` for the
      attributes, `_` for character data). */
  datatype XmlValue = Str(s: string) | Arr(items: seq<XmlValue>) | Obj(fields: seq<Field>)
  datatype Field = Field(key: string, value: XmlValue)

  function FieldValue(fields: seq<Field>, key: string): Option<XmlValue>
    decreases fields
  {
    if fields == [] then None
    else if fields[0].key == key then Some(fields[0].value)
    else FieldValue(fields[1..], key)
  }

  /** `v[key]`: only objects have named properties; anything else gives `undefined`. */
  function Get(v: XmlValue, key: string): Option<XmlValue> {
    if v.Obj? then FieldValue(v.fields, key) else None
  }

  /** JavaScript truthiness of a property read: `undefined` and the empty string are
      falsy, every other string, every array and every object is truthy. */
  predicate Truthy(o: Option<XmlValue>) {
    o.Some? && o.value != Str("")
  }

  const TextKey := "a:t"

  /** The message of the TypeError thrown when a truthy `a:t` value is not an array
      and so has no `forEach`. The JavaScript engine writes this text, not the code;
      the one given is how V8 prints the call. */
  const NotAnArrayMessage := "obj.a:t.forEach is not a function"

  /** Both walks succeeded: their runs, in order. */
  function AndThen(a: Option<seq<string>>, b: Option<seq<string>>): (r: Option<seq<string>>)
    ensures r.Some? <==> a.Some? && b.Some?
    ensures r.Some? ==> r.value == a.value + b.value
  {
    if a.Some? && b.Some? then Some(a.value + b.value) else None
  }

  /** The plain strings of an `a:t` array, in order; other items are skipped. */
  function StringItems(items: seq<XmlValue>): (r: seq<string>)
    ensures |r| <= |items|
  {
    if items == [] then []
    else (if items[0].Str? then [items[0].s] else []) + StringItems(items[1..])
  }

  /** The text runs `extractText` pushes when started on `v`, or `None` when it
      throws. A falsy value or a string gives nothing; a value with a truthy `a:t`
      gives that array's strings and is not searched further; otherwise every
      property is visited in key order. */
  function TextRuns(v: XmlValue): Option<seq<string>>
    decreases v, 1
  {
    if Truthy(Get(v, TextKey)) then
      var t := Get(v, TextKey).value;
      if t.Arr? then Some(StringItems(t.items)) else None
    else
      match v
      case Str(_) => Some([])
      case Arr(items) => ArrayKeyRuns(items)
      case Obj(fields) => ObjectRuns(fields)
  }

  /** One property value: an array is walked item by item, an object is walked,
      a string is skipped. */
  function PropertyRuns(x: XmlValue): Option<seq<string>>
    decreases x, 2
  {
    match x
    case Arr(items) => ItemRuns(items)
    case Obj(_) => TextRuns(x)
    case Str(_) => Some([])
  }

  /** `items.forEach(item => extractText(item))`. */
  function ItemRuns(items: seq<XmlValue>): Option<seq<string>>
    decreases items, 0
  {
    if items == [] then Some([]) else AndThen(TextRuns(items[0]), ItemRuns(items[1..]))
  }

  /** `Object.keys(obj)` of an object: its properties in key order. */
  function ObjectRuns(fields: seq<Field>): Option<seq<string>>
    decreases fields, 3
  {
    if fields == [] then Some([]) else AndThen(PropertyRuns(fields[0].value), ObjectRuns(fields[1..]))
  }

  /** `Object.keys(arr)` of an array: its elements are its properties. */
  function ArrayKeyRuns(items: seq<XmlValue>): Option<seq<string>>
    decreases items, 3
  {
    if items == [] then Some([]) else AndThen(PropertyRuns(items[0]), ArrayKeyRuns(items[1..]))
  }

  /** An image element: it has a truthy `a:blip`, or attributes with a truthy `r:embed`. */
  predicate HasEmbed(v: XmlValue) {
    Truthy(Get(v, "$")) && Truthy(Get(Get(v, "$").value, "r:embed"))
  }

  predicate IsImageNode(v: XmlValue) {
    Truthy(Get(v, "a:blip")) || HasEmbed(v)
  }

  /** What is recorded for an image element: its `r:embed` id, or `'image-ref'`. */
  function ImageRef(v: XmlValue): XmlValue {
    if HasEmbed(v) then Get(Get(v, "$").value, "r:embed").value else Str("image-ref")
  }

  /** `findImageRefs(v)`: an image element gives its one reference and is not searched
      further; otherwise the references of every property are concatenated in key order. */
  function ImageRefs(v: XmlValue): seq<XmlValue>
    decreases v, 1
  {
    if v == Str("") then []
    else if IsImageNode(v) then [ImageRef(v)]
    else
      match v
      case Str(_) => []
      case Arr(items) => ArrayKeyRefs(items)
      case Obj(fields) => ObjectRefs(fields)
  }

  function PropertyRefs(x: XmlValue): seq<XmlValue>
    decreases x, 2
  {
    match x
    case Arr(items) => ItemRefs(items)
    case Obj(_) => ImageRefs(x)
    case Str(_) => []
  }

  function ItemRefs(items: seq<XmlValue>): seq<XmlValue>
    decreases items, 0
  {
    if items == [] then [] else ImageRefs(items[0]) + ItemRefs(items[1..])
  }

  function ObjectRefs(fields: seq<Field>): seq<XmlValue>
    decreases fields, 3
  {
    if fields == [] then [] else PropertyRefs(fields[0].value) + ObjectRefs(fields[1..])
  }

  function ArrayKeyRefs(items: seq<XmlValue>): seq<XmlValue>
    decreases items, 3
  {
    if items == [] then [] else PropertyRefs(items[0]) + ArrayKeyRefs(items[1..])
  }

  // ---------------------------------------------------------------------------
  // Properties of the walks
  // ---------------------------------------------------------------------------

  /** Walking an array as an object (its keys) and walking it item by item agree, so a
      nested array is as transparent as the outer one. */
  lemma {:induction false} ArrayRunsAgree(items: seq<XmlValue>)
    ensures ArrayKeyRuns(items) == ItemRuns(items)
    ensures TextRuns(Arr(items)) == ItemRuns(items)
    decreases items
  {
    if items != [] {
      ArrayRunsAgree(items[1..]);
      match items[0]
      case Arr(inner) => ArrayRunsAgree(inner);
      case Obj(_) =>
      case Str(_) =>
    }
  }

  lemma {:induction false} ArrayRefsAgree(items: seq<XmlValue>)
    ensures ArrayKeyRefs(items) == ItemRefs(items)
    ensures ImageRefs(Arr(items)) == ItemRefs(items)
    decreases items
  {
    if items != [] {
      ArrayRefsAgree(items[1..]);
      match items[0]
      case Arr(inner) => ArrayRefsAgree(inner);
      case Obj(_) =>
      case Str(_) =>
    }
  }

  /** A text element, wherever its `a:t` key stands among its keys, contributes
      exactly the strings of its `a:t` array: the walk does not look at its other
      keys or below them. */
  lemma TextElementRuns(fields: seq<Field>, items: seq<XmlValue>)
    requires FieldValue(fields, TextKey) == Some(Arr(items))
    ensures TextRuns(Obj(fields)) == Some(StringItems(items))
  {
  }

  /** A truthy `a:t` that is not an array makes the walk throw, wherever the key
      stands among the element's keys. */
  lemma TextElementNotArray(fields: seq<Field>, t: XmlValue)
    requires FieldValue(fields, TextKey) == Some(t) && !t.Arr? && t != Str("")
    ensures TextRuns(Obj(fields)) == None
  {
  }

  /** An object's runs are those of its properties, in key order. */
  lemma {:induction false} ObjectRunsAppend(f: seq<Field>, g: seq<Field>)
    ensures ObjectRuns(f + g) == AndThen(ObjectRuns(f), ObjectRuns(g))
    decreases f
  {
    if f == [] {
      assert f + g == g;
      var c := ObjectRuns(g);
      assert c.Some? ==> [] + c.value == c.value;
    } else {
      assert (f + g)[1..] == f[1..] + g;
      ObjectRunsAppend(f[1..], g);
      var a, b, c := PropertyRuns(f[0].value), ObjectRuns(f[1..]), ObjectRuns(g);
      assert a.Some? && b.Some? && c.Some? ==> a.value + (b.value + c.value) == (a.value + b.value) + c.value;
    }
  }

  lemma {:induction false} ObjectRefsAppend(f: seq<Field>, g: seq<Field>)
    ensures ObjectRefs(f + g) == ObjectRefs(f) + ObjectRefs(g)
    decreases f
  {
    if f == [] {
      assert f + g == g;
    } else {
      assert (f + g)[1..] == f[1..] + g;
      ObjectRefsAppend(f[1..], g);
    }
  }

  /** Some element of the tree, at any depth, is an image element. This is the plain
      reading of "the slide has images", independent of where the walk stops. */
  predicate ContainsImage(v: XmlValue)
    decreases v
  {
    || IsImageNode(v)
    || (v.Arr? && exists i :: 0 <= i < |v.items| && ContainsImage(v.items[i]))
    || (v.Obj? && exists i :: 0 <= i < |v.fields| && ContainsImage(v.fields[i].value))
  }

  /** A slide is reported with images exactly when its tree holds an image element:
      stopping at image elements never hides one. */
  lemma {:induction false} ImageRefsFound(v: XmlValue)
    ensures |ImageRefs(v)| > 0 <==> ContainsImage(v)
    decreases v, 1
  {
    if v != Str("") && !IsImageNode(v) {
      match v
      case Str(_) =>
      case Arr(items) =>
        ArrayKeyRefsFound(items);
      case Obj(fields) =>
        ObjectRefsFound(fields);
    }
  }

  lemma {:induction false} PropertyRefsFound(x: XmlValue)
    ensures |PropertyRefs(x)| > 0 <==> ContainsImage(x)
    decreases x, 2
  {
    match x
    case Arr(items) =>
      ItemRefsFound(items);
      assert !IsImageNode(x);
    case Obj(_) => ImageRefsFound(x);
    case Str(_) => assert !IsImageNode(x);
  }

  lemma {:induction false} ItemRefsFound(items: seq<XmlValue>)
    ensures |ItemRefs(items)| > 0 <==> exists i :: 0 <= i < |items| && ContainsImage(items[i])
    decreases items, 0
  {
    if items != [] {
      ImageRefsFound(items[0]);
      ItemRefsFound(items[1..]);
      assert forall i :: 1 <= i < |items| ==> items[i] == items[1..][i - 1];
      assert forall i :: 0 <= i < |items| - 1 ==> items[1..][i] == items[i + 1];
    }
  }

  lemma {:induction false} ArrayKeyRefsFound(items: seq<XmlValue>)
    ensures |ArrayKeyRefs(items)| > 0 <==> exists i :: 0 <= i < |items| && ContainsImage(items[i])
    decreases items, 3
  {
    if items != [] {
      PropertyRefsFound(items[0]);
      ArrayKeyRefsFound(items[1..]);
      assert forall i :: 1 <= i < |items| ==> items[i] == items[1..][i - 1];
      assert forall i :: 0 <= i < |items| - 1 ==> items[1..][i] == items[i + 1];
    }
  }

  lemma {:induction false} ObjectRefsFound(fields: seq<Field>)
    ensures |ObjectRefs(fields)| > 0 <==> exists i :: 0 <= i < |fields| && ContainsImage(fields[i].value)
    decreases fields, 3
  {
    if fields != [] {
      PropertyRefsFound(fields[0].value);
      ObjectRefsFound(fields[1..]);
      assert forall i :: 1 <= i < |fields| ==> fields[i] == fields[1..][i - 1];
      assert forall i :: 0 <= i < |fields| - 1 ==> fields[1..][i] == fields[i + 1];
    }
  }

  /** An image element counts once, with its `r:embed` id when it has one. */
  lemma ImageElementCountsOnce(v: XmlValue)
    requires IsImageNode(v)
    ensures ImageRefs(v) == [ImageRef(v)]
    ensures HasEmbed(v) ==> ImageRef(v) == Get(Get(v, "$").value, "r:embed").value
    ensures !HasEmbed(v) ==> ImageRef(v) == Str("image-ref")
  {
  }
}
