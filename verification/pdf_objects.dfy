/** The already-parsed PDF object graph the signature finder walks, and the few
    loosely typed operations the core performs on it: Python truthiness,
    `get_object()`, `.get(key)` and iteration. The parser that builds the graph
    is not part of this model; a document is given as its trailer, its table of
    indirect objects and the objects the parser has cached. */
module PdfObjects {
  import opened Wrappers

  /** A PDF value. `Ref(n)` is an indirect reference to object number `n`;
      `Other` stands for numbers, booleans and anything else the core never
      looks inside, keeping only its Python truthiness. */
  datatype Obj =
    | Dict(entries: map<string, Obj>)
    | Arr(items: seq<Obj>)
    | Name(name: string)
    | Str(text: string)
    | Ref(num: nat)
    | Null
    | Other(truthy: bool)

  /** Object number to object, as the cross-reference table resolves them. */
  type Table = map<nat, Obj>

  /** What the core sees of a `PdfReader`: the trailer dictionary, the table
      indirect references resolve against, and the values of the reader's
      resolved-object cache in its iteration order. */
  datatype Reader = Reader(trailer: map<string, Obj>, table: Table, resolved: seq<Obj>)

  const RootKey := "/Root"
  const AcroFormKey := "/AcroForm"
  const FieldsKey := "/Fields"
  const ValueKey := "/V"
  const NameKey := "/Name"
  const TimeKey := "/M"
  const SigKey := "/Sig"

  /** Python truthiness of a PDF value: containers and strings are true when
      non-empty, a reference object is always true, and a PDF null counts as
      an absent entry. */
  predicate IsTruthy(o: Obj) {
    match o
    case Dict(d) => |d| > 0
    case Arr(items) => |items| > 0
    case Name(n) => |n| > 0
    case Str(s) => |s| > 0
    case Ref(_) => true
    case Null => false
    case Other(b) => b
  }

  /** Python truthiness of what `.get` returned, where a missing key is `None`. */
  predicate Truthy(v: Option<Obj>) {
    v.Some? && IsTruthy(v.value)
  }

  /** `d.get(key)` on a dictionary: `None` when the key is absent. */
  function Lookup(d: map<string, Obj>, key: string): (v: Option<Obj>)
    ensures v.Some? <==> key in d
    ensures v.Some? ==> v.value == d[key]
  {
    if key in d then Some(d[key]) else None
  }

  /** `o.get_object()`: an indirect reference is resolved one step against the
      table and raises when it dangles; every other value is itself. */
  function GetObject(t: Table, o: Obj): (r: Outcome<Obj>)
    ensures r.Raised? <==> o.Ref? && o.num !in t
    ensures r.Value? && !o.Ref? ==> r.value == o
    ensures r.Value? && o.Ref? ==> r.value == t[o.num]
  {
    match o
    case Ref(n) => if n in t then Value(t[n]) else Raised
    case _ => Value(o)
  }

  /** The dictionary a `.get` call on `o` consults: `o` itself when it is a
      dictionary, or the dictionary an indirect reference resolves to in one
      step. Any other value has no `get`. */
  function DictOf(t: Table, o: Obj): (d: Option<map<string, Obj>>)
    ensures o.Dict? ==> d == Some(o.entries)
    ensures o.Ref? && o.num in t && t[o.num].Dict? ==> d == Some(t[o.num].entries)
    ensures d.None? <==> !o.Dict? && !(o.Ref? && o.num in t && t[o.num].Dict?)
  {
    match o
    case Dict(entries) => Some(entries)
    case Ref(n) => if n in t && t[n].Dict? then Some(t[n].entries) else None
    case _ => None
  }

  /** `o.get(key)`: a dictionary looks the key up; a reference forwards the
      call to the dictionary it resolves to in one step; any other value has
      no `get` and raises. */
  function Get(t: Table, o: Obj, key: string): (r: Outcome<Option<Obj>>)
    ensures o.Dict? ==> r == Value(Lookup(o.entries, key))
    ensures o.Ref? && o.num in t && t[o.num].Dict? ==> r == Value(Lookup(t[o.num].entries, key))
    ensures r.Raised? <==> !o.Dict? && !(o.Ref? && o.num in t && t[o.num].Dict?)
  {
    match DictOf(t, o)
    case Some(d) => Value(Lookup(d, key))
    case None => Raised
  }

  /** The elements a `for` loop visits when it finds elements to call
      `get_object()` on: those of an array, or of the array a reference points
      at. Iterating anything else either raises outright or yields only
      elements that raise at once, so it visits no element that matters. */
  function Elements(t: Table, o: Obj): (items: seq<Obj>)
    ensures o.Arr? ==> items == o.items
    ensures items != [] ==> o.Arr? || (o.Ref? && o.num in t && t[o.num].Arr?)
  {
    match o
    case Arr(items) => items
    case Ref(n) => if n in t && t[n].Arr? then t[n].items else []
    case _ => []
  }
}
