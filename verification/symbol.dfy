/**
 * The symbol registry of symbol.mjs: the frozen `Symbols` object holding the
 * three symbols Blank, Cross and Nought, and the reverse lookup `symbolForName`.
 * The SVG markup of each symbol is fetched at start-up from the file
 * `filenameFromSymbolName` names; the fetch itself is not modelled, and the
 * files' contents are given as an `Assets` value.
 */
module Symbols {
  import opened Results

  /** The three entries of the frozen registry, compared by identity. */
  datatype Marker = Blank | Cross | Nought

  /** A symbol: its name and its SVG markup. */
  datatype Symbol = Symbol(name: string, svg: string)

  /** The served files: the text `fetch(file)` resolves to, for each path. */
  datatype Assets = Assets(load: string -> string)

  /** The name each registry entry is created with. */
  function Name(m: Marker): string {
    match m
    case Blank => "blank"
    case Cross => "cross"
    case Nought => "nought"
  }

  /**
   * `make(name)` for the registry entry `m`: the symbol keeps the name and
   * carries the content of the file its name maps to.
   */
  function SymbolOf(assets: Assets, m: Marker): (s: Symbol)
    ensures s.name == Name(m)
    ensures s.svg == assets.load(FilenameFromSymbolName(s.name))
  {
    var name := Name(m);
    Symbol(name, assets.load(FilenameFromSymbolName(name)))
  }

  /** The entries of the registry in the order `Object.values(Symbols)` yields them. */
  const Registry: seq<Marker> := [Blank, Cross, Nought]

  /** The registry holds each of the three markers exactly once, under three distinct names. */
  lemma RegistryIsExactlyThree()
    ensures |Registry| == 3
    ensures forall m: Marker :: m in Registry
    ensures forall i, j :: 0 <= i < j < |Registry| ==> Name(Registry[i]) != Name(Registry[j])
  {
    forall m: Marker
      ensures m in Registry
    {
      match m
      case Blank => assert Registry[0] == m;
      case Cross => assert Registry[1] == m;
      case Nought => assert Registry[2] == m;
    }
  }

  /** Distinct markers have distinct names. */
  lemma NameInjective(m1: Marker, m2: Marker)
    ensures Name(m1) == Name(m2) ==> m1 == m2
  {
  }

  /** The first of `entries` whose name is `name` (the loop of `symbolForName`). */
  function FindByName(entries: seq<Marker>, name: string): (r: Option<Marker>)
    ensures r.Some? ==> r.value in entries && Name(r.value) == name
    ensures r.None? <==> forall m :: m in entries ==> Name(m) != name
  {
    if |entries| == 0 then None
    else if Name(entries[0]) == name then Some(entries[0])
    else FindByName(entries[1..], name)
  }

  /** The error message `symbolForName` throws for an unknown name. */
  function NotFound(name: string): string {
    "Symbol not found for name: " + name
  }

  /**
   * `symbolForName`: the registered symbol called `name`, or the
   * "Symbol not found" error when no registered symbol has that name.
   */
  function SymbolForName(name: string): (r: Result<Marker>)
    ensures r.Ok? ==> Name(r.value) == name
    ensures r.Err? <==> name != "blank" && name != "cross" && name != "nought"
    ensures r.Err? ==> r.message == NotFound(name)
  {
    RegistryIsExactlyThree();
    assert Name(Blank) == "blank" && Name(Cross) == "cross" && Name(Nought) == "nought";
    match FindByName(Registry, name)
    case Some(m) => Ok(m)
    case None => Err(NotFound(name))
  }

  /** Looking up the name of any registered symbol gives back that symbol. */
  lemma SymbolForNameRoundTrip(m: Marker)
    ensures SymbolForName(Name(m)) == Ok(m)
  {
    var r := SymbolForName(Name(m));
    NameInjective(r.value, m);
  }

  /** `filenameFromSymbolName`: the path of the SVG file of a symbol. */
  function FilenameFromSymbolName(name: string): (file: string)
    ensures |file| == |name| + 8
    ensures file[..4] == "img/" && file[|file| - 4..] == ".svg"
    ensures file[4..|file| - 4] == name
  {
    "img/" + name + ".svg"
  }

  /** The symbol name a file path of the form `img/<name>.svg` was built from. */
  function SymbolNameFromFilename(file: string): (r: Option<string>)
    ensures r.Some? <==> |file| >= 8 && file[..4] == "img/" && file[|file| - 4..] == ".svg"
    ensures r.Some? ==> FilenameFromSymbolName(r.value) == file
  {
    if |file| >= 8 && file[..4] == "img/" && file[|file| - 4..] == ".svg"
    then Some(file[4..|file| - 4])
    else None
  }

  /** The file name of a symbol determines the symbol name. */
  lemma FilenameRoundTrip(name: string)
    ensures SymbolNameFromFilename(FilenameFromSymbolName(name)) == Some(name)
  {
  }
}
