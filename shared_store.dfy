/** The shared key/value store through which views publish and observe UI state
    (the selected node, the auto-pan switch, the persisted expansion flags), and
    the two accessors the diagram uses for the expansion dictionary. */
module SharedStore {
  import opened Common

  /** The values the diagram reads from or writes to the store, as JavaScript sees
      them. The expansion dictionary maps node ids to flags. */
  datatype StoreValue =
    | Undefined
    | Null
    | Bool(b: bool)
    | Str(s: string)
    | Dict(entries: map<string, bool>)

  /** JavaScript truthiness: `undefined`, `null`, `false` and `''` are falsy;
      every object is truthy. */
  predicate Truthy(v: StoreValue) {
    match v
    case Undefined => false
    case Null => false
    case Bool(b) => b
    case Str(s) => s != ""
    case Dict(_) => true
  }

  const SelectedDnKey: string := "selected_dn"
  const AutoPanKey: string := "auto_pan_to_selected_dn"
  const ExpandedDnsKey: string := "diagram_expanded_dns"

  /** Indexing `null` or `undefined` throws a `TypeError`. */
  datatype StoreError = TypeError

  /** The store: a map from keys to values; a missing key reads as `undefined`. */
  class SharedState {
    var entries: map<string, StoreValue>

    constructor(initial: map<string, StoreValue>)
      ensures entries == initial
    {
      entries := initial;
    }

    function Get(key: string): StoreValue
      reads this
    {
      if key in entries then entries[key] else Undefined
    }

    method Set(key: string, value: StoreValue)
      modifies this
      ensures entries == old(entries)[key := value]
    {
      entries := entries[key := value];
    }
  }

  /** The selection as the diagram sees it: a node id, or none for `null` and
      `undefined`. */
  function AsSelection(v: StoreValue): (r: Option<string>)
    ensures r.Some? <==> v.Str?
    ensures v.Str? ==> r.value == v.s
  {
    if v.Str? then Some(v.s) else None
  }

  /** The value `AsSelection` reads back as `sel`. */
  function SelectionValue(sel: Option<string>): (v: StoreValue)
    ensures AsSelection(v) == sel
    ensures sel.None? ==> v == Null
  {
    if sel.Some? then Str(sel.value) else Null
  }

  /** `getExpanded`: `dict[dn]` coerced to a boolean; the lookup throws when the
      dictionary is `null` or `undefined`. Property lookups on a boolean or a string
      are taken to find nothing. */
  function ReadExpanded(dict: StoreValue, dn: string): (r: Result<bool, StoreError>)
    ensures r.Failure? <==> dict.Undefined? || dict.Null?
    ensures dict.Dict? ==> (r == Success(true) <==> dn in dict.entries && dict.entries[dn])
  {
    match dict
    case Undefined => Failure(TypeError)
    case Null => Failure(TypeError)
    case Dict(d) => Success(dn in d && d[dn])
    case _ => Success(false)
  }

  /** `setExpanded`'s write `dict[dn] = value`: it updates a dictionary and throws
      on anything else (a property write on `null`/`undefined` or, in module code,
      on a primitive). */
  function WriteExpanded(dict: StoreValue, dn: string, value: bool): (r: Result<StoreValue, StoreError>)
    ensures r.Success? <==> dict.Dict?
    ensures r.Success? ==> r.value.Dict? && r.value.entries.Keys == dict.entries.Keys + {dn}
  {
    match dict
    case Dict(d) => Success(Dict(d[dn := value]))
    case _ => Failure(TypeError)
  }

  /** Reading back a written flag yields it, and the other ids keep their flags. */
  lemma WriteThenRead(dict: StoreValue, dn: string, value: bool, other: string)
    requires WriteExpanded(dict, dn, value).Success?
    ensures ReadExpanded(WriteExpanded(dict, dn, value).value, dn) == Success(value)
    ensures other != dn ==>
              ReadExpanded(WriteExpanded(dict, dn, value).value, other) == ReadExpanded(dict, other)
  {
  }

  /** Writing back the flag just read leaves every id's flag as it was. */
  lemma ReadThenWrite(dict: StoreValue, dn: string, other: string)
    requires dict.Dict?
    ensures var w := WriteExpanded(dict, dn, ReadExpanded(dict, dn).value);
            w.Success? && ReadExpanded(w.value, other) == ReadExpanded(dict, other)
  {
  }
}
