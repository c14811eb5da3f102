/**
 * The position table: field id -> placement descriptor, cleaned on save
 * and partly re-normalised on load. Storage is an input value instead of
 * a file.
 */
module Positions {
  import opened Text

  /** A placement descriptor as stored: property name -> string value. */
  type Descriptor = map<string, string>

  /** Field id -> descriptor. */
  type PositionSet = map<string, Descriptor>

  const Top: string := "top"
  const Left: string := "left"
  const FontSize: string := "fontSize"
  const FontStyle: string := "fontStyle"

  const DescriptorKeys: set<string> := {Top, Left, FontSize, FontStyle}

  const DefaultStyle: string := "CooperBlkBT-Italic"

  /** Python `dict.get(key, default)`. */
  function Get(d: map<string, string>, key: string, default: string): string
  {
    if key in d then d[key] else default
  }

  /** The three properties whose "px" unit `save_positions` removes. */
  predicate NumericKey(key: string)
  {
    key == Top || key == Left || key == FontSize
  }

  /**
   * One cleaned entry of `save_positions`: exactly the four properties,
   * missing ones defaulted, "px" removed from the numeric three only.
   */
  function CleanDescriptor(d: Descriptor): (c: Descriptor)
    ensures c.Keys == DescriptorKeys
    ensures c[FontStyle] == Get(d, FontStyle, DefaultStyle)
    ensures Top in d ==> c[Top] == RemovePx(d[Top])
    ensures Left in d ==> c[Left] == RemovePx(d[Left])
    ensures FontSize in d ==> c[FontSize] == RemovePx(d[FontSize])
    ensures Top !in d ==> c[Top] == "0"
    ensures Left !in d ==> c[Left] == "0"
    ensures FontSize !in d ==> c[FontSize] == "16"
  {
    RemovePxKeepsXFree("0");
    RemovePxKeepsXFree("16");
    map[
      Top := RemovePx(Get(d, Top, "0")),
      Left := RemovePx(Get(d, Left, "0")),
      FontSize := RemovePx(Get(d, FontSize, "16")),
      FontStyle := Get(d, FontStyle, DefaultStyle)
    ]
  }

  /** A numeric value is saved verbatim exactly when it contains no "px". */
  lemma CleanKeepsPxFreeValues(d: Descriptor, key: string)
    requires NumericKey(key) && key in d
    ensures CleanDescriptor(d)[key] == d[key] <==> !Contains(d[key], "px")
  {
    RemovePxIdentityIff(d[key]);
  }

  /** What `save_positions` writes: every entry cleaned, the key set unchanged. */
  function Cleaned(positions: PositionSet): (c: PositionSet)
    ensures c.Keys == positions.Keys
    ensures forall f :: f in c ==> c[f] == CleanDescriptor(positions[f])
  {
    map f | f in positions :: CleanDescriptor(positions[f])
  }

  /** `save_positions`: the loop that builds `cleaned_positions` entry by entry. */
  method SavePositions(positions: PositionSet) returns (cleaned: PositionSet)
    ensures cleaned.Keys == positions.Keys
    ensures forall f :: f in cleaned ==> cleaned[f] == CleanDescriptor(positions[f])
  {
    cleaned := map[];
    var todo := positions.Keys;
    while todo != {}
      invariant todo <= positions.Keys
      invariant cleaned.Keys == positions.Keys - todo
      invariant forall f :: f in cleaned ==> cleaned[f] == CleanDescriptor(positions[f])
      decreases |todo|
    {
      var key :| key in todo;
      cleaned := cleaned[key := CleanDescriptor(positions[key])];
      todo := todo - {key};
    }
  }

  /** A table whose entries are the cleaned entries of `positions` is Cleaned(positions). */
  lemma CleanedByEntries(positions: PositionSet, cleaned: PositionSet)
    requires cleaned.Keys == positions.Keys
    requires forall f :: f in cleaned ==> cleaned[f] == CleanDescriptor(positions[f])
    ensures cleaned == Cleaned(positions)
  {
    var spec := Cleaned(positions);
    assert forall f :: f in cleaned ==> cleaned[f] == spec[f];
  }

  /** What the positions file holds when `load_positions` opens it. */
  datatype Store = Absent | Undecodable | Stored(positions: PositionSet)

  /** The table `load_positions` falls back to and persists. */
  function DefaultPositions(): PositionSet
  {
    map["name" := NameDefault, "certificate_id" := IdDefault, "course_duration" := DurationDefault]
  }

  /** The table the start-up code persists when no positions file exists. */
  function StartupPositions(): PositionSet
  {
    map[
      "name" := map[Top := "280", Left := "442", FontSize := "46", FontStyle := "CooperBlkBT-Italic"],
      "certificate_id" := map[Top := "600", Left := "160", FontSize := "16", FontStyle := "CooperBlkBT-Italic"],
      "course_duration" := map[Top := "600", Left := "850", FontSize := "16", FontStyle := "CooperBlkBT-Italic"]
    ]
  }

  /** The fontSize rewrite `load_positions` applies to each stored entry. */
  function ReloadDescriptor(d: Descriptor): (r: Descriptor)
    ensures r.Keys == d.Keys + {FontSize}
    ensures r[FontSize] == RemovePx(Get(d, FontSize, "16"))
    ensures forall key :: key in d && key != FontSize ==> r[key] == d[key]
  {
    d[FontSize := RemovePx(Get(d, FontSize, "16"))]
  }

  /**
   * `load_positions`: the table returned and what the store holds afterwards.
   * A missing or undecodable file yields the default table, which is also
   * saved; a decoded one is returned with only fontSize rewritten.
   */
  function Load(store: Store): (r: (PositionSet, Store))
    ensures !store.Stored? ==> r.0 == DefaultPositions() && r.1 == Stored(Cleaned(DefaultPositions()))
    ensures store.Stored? ==> r.1 == store && r.0.Keys == store.positions.Keys
    ensures store.Stored? ==> forall f :: f in r.0 ==> r.0[f] == ReloadDescriptor(store.positions[f])
  {
    match store
    case Stored(p) => (map f | f in p :: ReloadDescriptor(p[f]), store)
    case _ => (DefaultPositions(), Stored(Cleaned(DefaultPositions())))
  }

  /** The loop of `load_positions` over a decoded table: each entry's fontSize rewritten in place. */
  method ReloadSizes(p: PositionSet) returns (positions: PositionSet)
    ensures positions.Keys == p.Keys
    ensures forall f :: f in positions ==> positions[f] == ReloadDescriptor(p[f])
  {
    positions := p;
    var todo := p.Keys;
    while todo != {}
      invariant todo <= p.Keys
      invariant positions.Keys == p.Keys
      invariant forall f :: f in positions && f !in todo ==> positions[f] == ReloadDescriptor(p[f])
      invariant forall f :: f in todo ==> positions[f] == p[f]
      decreases |todo|
    {
      var f :| f in todo;
      positions := positions[f := ReloadDescriptor(positions[f])];
      todo := todo - {f};
    }
  }

  /** A table whose entries are the reloaded entries of `p` is what Load returns for it. */
  lemma ReloadedByEntries(p: PositionSet, positions: PositionSet)
    requires positions.Keys == p.Keys
    requires forall f :: f in positions ==> positions[f] == ReloadDescriptor(p[f])
    ensures positions == Load(Stored(p)).0
  {
    var spec := Load(Stored(p)).0;
    assert forall f :: f in positions ==> positions[f] == spec[f];
  }

  /**
   * `load_positions`: a decoded file is reloaded entry by entry; a missing
   * or undecodable one gives the default table, which is saved.
   */
  method LoadPositions(store: Store) returns (positions: PositionSet, after: Store)
    ensures (positions, after) == Load(store)
  {
    match store {
      case Stored(p) =>
        positions := ReloadSizes(p);
        ReloadedByEntries(p, positions);
        after := store;
      case _ =>
        positions := DefaultPositions();
        var written := SavePositions(DefaultPositions());
        CleanedByEntries(DefaultPositions(), written);
        after := Stored(written);
    }
  }

  /** A descriptor that cleaning leaves unchanged. */
  ghost predicate IsClean(d: Descriptor)
  {
    && d.Keys == DescriptorKeys
    && !Contains(d[Top], "px") && !Contains(d[Left], "px") && !Contains(d[FontSize], "px")
  }

  lemma CleanDescriptorFixesClean(d: Descriptor)
    requires IsClean(d)
    ensures CleanDescriptor(d) == d
  {
    var c := CleanDescriptor(d);
    ReplaceAbsent(d[Top], "px", "");
    ReplaceAbsent(d[Left], "px", "");
    ReplaceAbsent(d[FontSize], "px", "");
    assert c.Keys == d.Keys;
  }

  lemma DefaultEntryClean(top: string, left: string, size: string, style: string)
    requires forall i :: 0 <= i < |top| ==> top[i] != 'x'
    requires forall i :: 0 <= i < |left| ==> left[i] != 'x'
    requires forall i :: 0 <= i < |size| ==> size[i] != 'x'
    ensures CleanDescriptor(map[Top := top, Left := left, FontSize := size, FontStyle := style])
      == map[Top := top, Left := left, FontSize := size, FontStyle := style]
  {
    RemovePxKeepsXFree(top);
    RemovePxKeepsXFree(left);
    RemovePxKeepsXFree(size);
    CleanDescriptorFixesClean(map[Top := top, Left := left, FontSize := size, FontStyle := style]);
  }

  const NameDefault: Descriptor := map[Top := "280", Left := "442", FontSize := "46", FontStyle := "CooperBlkBT-Italic"]
  const IdDefault: Descriptor := map[Top := "600", Left := "160", FontSize := "16", FontStyle := "CooperBlkBT-Italic"]
  const DurationDefault: Descriptor := map[Top := "600", Left := "850", FontSize := "16", FontStyle := "CooperLtBT-Italic"]

  lemma NameDefaultClean()
    ensures CleanDescriptor(NameDefault) == NameDefault
  {
    DefaultEntryClean("280", "442", "46", "CooperBlkBT-Italic");
  }

  lemma IdDefaultClean()
    ensures CleanDescriptor(IdDefault) == IdDefault
  {
    DefaultEntryClean("600", "160", "16", "CooperBlkBT-Italic");
  }

  lemma DurationDefaultClean()
    ensures CleanDescriptor(DurationDefault) == DurationDefault
  {
    DefaultEntryClean("600", "850", "16", "CooperLtBT-Italic");
  }

  /** Cleaning a table whose entries are already clean changes nothing. */
  lemma CleanedFixesCleanEntries(positions: PositionSet)
    requires forall f :: f in positions ==> CleanDescriptor(positions[f]) == positions[f]
    ensures Cleaned(positions) == positions
  {
    var c := Cleaned(positions);
    assert c.Keys == positions.Keys;
    forall f | f in c ensures c[f] == positions[f] {
    }
  }

  /** A three-field table with clean entries is left unchanged by cleaning. */
  lemma CleanedFixesThree(name: Descriptor, id: Descriptor, duration: Descriptor)
    requires CleanDescriptor(name) == name && CleanDescriptor(id) == id && CleanDescriptor(duration) == duration
    ensures Cleaned(map["name" := name, "certificate_id" := id, "course_duration" := duration])
      == map["name" := name, "certificate_id" := id, "course_duration" := duration]
  {
    var d := map["name" := name, "certificate_id" := id, "course_duration" := duration];
    assert forall f :: f in d ==> CleanDescriptor(d[f]) == d[f];
    CleanedFixesCleanEntries(d);
  }

  /** Saving the default table writes it unchanged: the file holds what was returned. */
  lemma DefaultIsClean()
    ensures Cleaned(DefaultPositions()) == DefaultPositions()
  {
    NameDefaultClean();
    IdDefaultClean();
    DurationDefaultClean();
    CleanedFixesThree(NameDefault, IdDefault, DurationDefault);
  }

  /** Loading a stored table changes nothing when every entry has a fontSize without "px". */
  lemma LoadFixesPxFreeSizes(positions: PositionSet)
    requires forall f :: f in positions ==> FontSize in positions[f] && !Contains(positions[f][FontSize], "px")
    ensures Load(Stored(positions)).0 == positions
  {
    var l := Load(Stored(positions)).0;
    assert l.Keys == positions.Keys;
    forall f | f in l ensures l[f] == positions[f] {
      ReplaceAbsent(positions[f][FontSize], "px", "");
      assert l[f].Keys == positions[f].Keys;
    }
  }

  /**
   * With no file, loading returns the default table and persists it, and a
   * second load reads back the same table.
   */
  lemma LoadMissingPersistsDefault(store: Store)
    requires !store.Stored?
    ensures Load(store) == (DefaultPositions(), Stored(DefaultPositions()))
    ensures Load(Load(store).1).0 == DefaultPositions()
  {
    DefaultIsClean();
    DefaultSizesPxFree();
    LoadFixesPxFreeSizes(DefaultPositions());
  }

  lemma DefaultSizesPxFree()
    ensures forall f :: f in DefaultPositions() ==>
      FontSize in DefaultPositions()[f] && !Contains(DefaultPositions()[f][FontSize], "px")
  {
    RemovePxKeepsXFree("46");
    RemovePxKeepsXFree("16");
  }

  /**
   * Save then load: top, left and fontStyle always come back unchanged, and
   * the whole table comes back unchanged exactly when no saved fontSize
   * still contains "px".
   */
  lemma SaveLoadRoundTrip(positions: PositionSet)
    ensures var saved := Cleaned(positions); var loaded := Load(Stored(saved)).0;
      && loaded.Keys == saved.Keys
      && (forall f :: f in loaded ==> loaded[f][Top] == saved[f][Top] && loaded[f][Left] == saved[f][Left]
                                      && loaded[f][FontStyle] == saved[f][FontStyle])
      && (loaded == saved <==> forall f :: f in saved ==> !Contains(saved[f][FontSize], "px"))
  {
    var saved := Cleaned(positions);
    var loaded := Load(Stored(saved)).0;
    if forall f :: f in saved ==> !Contains(saved[f][FontSize], "px") {
      LoadFixesPxFreeSizes(saved);
    } else {
      var f :| f in saved && Contains(saved[f][FontSize], "px");
      RemovePxShortens(saved[f][FontSize]);
      assert loaded[f][FontSize] != saved[f][FontSize];
    }
  }

  /** A fontSize of "ppxx" is saved as "px" and loaded as "": the round trip can lose data. */
  lemma SaveLoadLosesDoubledUnit()
    ensures var p := map["name" := map[FontSize := "ppxx"]];
      && Cleaned(p)["name"][FontSize] == "px"
      && Load(Stored(Cleaned(p))).0["name"][FontSize] == ""
      && Cleaned(Cleaned(p)) != Cleaned(p)
  {
    RemovePxNotIdempotent();
    var p := map["name" := map[FontSize := "ppxx"]];
    assert Cleaned(Cleaned(p))["name"][FontSize] == "";
  }

  /**
   * The two built-in tables agree except for course_duration's font style:
   * CooperLtBT-Italic in the loader, CooperBlkBT-Italic at start-up.
   */
  lemma DefaultTablesDiffer()
    ensures DefaultPositions().Keys == StartupPositions().Keys
    ensures DefaultPositions()["name"] == StartupPositions()["name"]
    ensures DefaultPositions()["certificate_id"] == StartupPositions()["certificate_id"]
    ensures DefaultPositions()["course_duration"][FontStyle] == "CooperLtBT-Italic"
    ensures StartupPositions()["course_duration"][FontStyle] == "CooperBlkBT-Italic"
    ensures DefaultPositions()["course_duration"] == StartupPositions()["course_duration"][FontStyle := "CooperLtBT-Italic"]
  {
  }
}
