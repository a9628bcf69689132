/**
 * The schema migrator: a registry of named migrations, each a shape test
 * and a transform, run in registration order over a loaded document. The
 * one registered migration, "arrays-to-maps", turns the legacy list form of
 * `columns` and `rows` into maps keyed by element id, giving each element
 * a zero-padded order key from its list position.
 *
 * The document is modelled by its JSON view. The merge engine's
 * transactional `change` becomes applying the transform to that view: a
 * transform that throws (`None`) makes `change`, and so the migration run,
 * throw, with no partial result.
 */
module Migrations {
  import opened Wrappers
  import opened Strings
  import opened Json

  // ---------------------------------------------------------------------
  // The values JavaScript produces on the way
  // ---------------------------------------------------------------------

  /** The property key JavaScript derives from a value used as `obj[v]` (`String(v)`). */
  function ToKey(j: Json): string
    decreases j
  {
    match j
    case Null => "null"
    case Bool(b) => if b then "true" else "false"
    case Num(n) => IntToString(n)
    case Str(s) => s
    case Obj(_) => "[object Object]"
    case Arr(xs) => Join(seq(|xs|, i requires 0 <= i < |xs| => if xs[i].Null? then "" else ToKey(xs[i])), ",")
  }

  /**
   * The key `d.columns[col.id]` writes under: `None` when `col.id` throws
   * (`col` is `null`); "undefined" when the element has no `id`.
   */
  function ElementKey(e: Json): (k: Option<string>)
    ensures k.None? <==> e.Null?
  {
    if e.Null? then None
    else
      match Lookup(e, "id")
      case None => Some("undefined")
      case Some(id) => Some(ToKey(id))
  }

  /** `String(i).padStart(5, "0")`. */
  function OrderKey(i: nat): (s: string)
    ensures |s| >= 5
  {
    PadStart(Decimal(i), 5, '0')
  }

  /** The own properties `{ ...e }` copies; only objects are modelled as having any. */
  function Spread(e: Json): map<string, Json>
  {
    if e.Obj? then e.fields else map[]
  }

  /** `{ ...e, order: String(i).padStart(5, "0") }`. */
  function ElementEntry(e: Json, i: nat): Json
  {
    Obj(Spread(e)["order" := Str(OrderKey(i))])
  }

  // ---------------------------------------------------------------------
  // One list
  // ---------------------------------------------------------------------

  /**
   * The map one converted list becomes: the elements in list order, each
   * written under its key, so that a later element with the same key
   * replaces an earlier one. `None` when an element throws.
   */
  function Convert(items: seq<Json>): (r: Option<map<string, Json>>)
    ensures r.Some? ==> forall i :: 0 <= i < |items| ==> !items[i].Null?
    decreases |items|
  {
    if |items| == 0 then Some(map[])
    else
      var i := |items| - 1;
      match Convert(items[..i])
      case None => None
      case Some(m) =>
        match ElementKey(items[i])
        case None => None
        case Some(k) =>
          assert forall j :: 0 <= j < i ==> items[j] == items[..i][j];
          Some(m[k := ElementEntry(items[i], i)])
  }

  /** A list converts unless one of its elements is `null`. */
  lemma {:induction false} ConvertFails(items: seq<Json>)
    ensures Convert(items).None? <==> exists i :: 0 <= i < |items| && items[i].Null?
    decreases |items|
  {
    if |items| > 0 {
      var n := |items| - 1;
      ConvertFails(items[..n]);
      if exists i :: 0 <= i < n && items[..n][i].Null? {
        var i :| 0 <= i < n && items[..n][i].Null?;
        assert items[i].Null?;
      }
      if exists i :: 0 <= i < |items| && items[i].Null? {
        var i :| 0 <= i < |items| && items[i].Null?;
        if i < n {
          assert items[..n][i].Null?;
        }
      }
    }
  }

  /** The last element of a list is converted after the ones before it. */
  lemma ConvertLast(items: seq<Json>)
    requires |items| > 0
    ensures Convert(items).Some? ==>
              && Convert(items[..|items| - 1]).Some?
              && ElementKey(items[|items| - 1]).Some?
              && Convert(items).value
                 == Convert(items[..|items| - 1]).value[ElementKey(items[|items| - 1]).value := ElementEntry(items[|items| - 1], |items| - 1)]
  {
  }

  /** Keying one more element adds exactly its key to the keys of the ones before it. */
  lemma KeysExtend(m: map<string, Json>, m': map<string, Json>, items: seq<Json>, key: Json -> Option<string>)
    requires |items| > 0 && key(items[|items| - 1]).Some?
    requires forall k :: k in m <==> exists i :: 0 <= i < |items| - 1 && key(items[i]) == Some(k)
    requires m'.Keys == m.Keys + {key(items[|items| - 1]).value}
    ensures forall k :: k in m' <==> exists i :: 0 <= i < |items| && key(items[i]) == Some(k)
  {
  }

  /** The converted map has exactly the elements' keys. */
  lemma {:induction false} ConvertKeys(items: seq<Json>)
    requires Convert(items).Some?
    ensures forall k :: k in Convert(items).value <==> exists i :: 0 <= i < |items| && ElementKey(items[i]) == Some(k)
    decreases |items|
  {
    if |items| > 0 {
      var n := |items| - 1;
      var p := items[..n];
      ConvertLast(items);
      ConvertKeys(p);
      assert forall i :: 0 <= i < n ==> p[i] == items[i];
      KeysExtend(Convert(p).value, Convert(items).value, items, ElementKey);
    }
  }

  /**
   * Each element whose key no later element shares ends up under its key,
   * with every field kept and `order` set from its position.
   */
  lemma {:induction false} ConvertLastWins(items: seq<Json>, i: nat)
    requires Convert(items).Some? && i < |items|
    requires forall j :: i < j < |items| ==> ElementKey(items[j]) != ElementKey(items[i])
    ensures ElementKey(items[i]).value in Convert(items).value
    ensures Convert(items).value[ElementKey(items[i]).value] == ElementEntry(items[i], i)
    decreases |items|
  {
    var n := |items| - 1;
    ConvertLast(items);
    if i < n {
      assert items[..n][i] == items[i];
      assert forall j :: i < j < n ==> items[..n][j] == items[j];
      ConvertLastWins(items[..n], i);
      assert ElementKey(items[n]) != ElementKey(items[i]);
    }
  }

  /** With distinct keys nothing is overwritten: the map has one entry per element. */
  lemma {:induction false} ConvertSize(items: seq<Json>)
    requires Convert(items).Some?
    requires forall i, j :: 0 <= i < j < |items| ==> ElementKey(items[i]) != ElementKey(items[j])
    ensures |Convert(items).value| == |items|
    decreases |items|
  {
    if |items| > 0 {
      var n := |items| - 1;
      var k := ElementKey(items[n]).value;
      ConvertSize(items[..n]);
      ConvertKeys(items[..n]);
      assert k !in Convert(items[..n]).value;
    }
  }

  /** The spread keeps every field of an object element; only `order` is added or replaced. */
  lemma EntryKeepsFields(e: Json, i: nat)
    requires e.Obj?
    ensures ElementEntry(e, i).fields.Keys == e.fields.Keys + {"order"}
    ensures ElementEntry(e, i).fields["order"] == Str(OrderKey(i))
    ensures forall f :: f in e.fields && f != "order" ==> ElementEntry(e, i).fields[f] == e.fields[f]
  {
  }

  /** Below 100000 the padded keys order the elements as their positions do, under string comparison. */
  lemma OrderKeysIncrease(i: nat, j: nat)
    requires i < j < 100000
    ensures Less(OrderKey(i), OrderKey(j))
  {
    assert Pow10(5) == 100000;
    PadDecimalIsFixedDigits(i, 5);
    PadDecimalIsFixedDigits(j, 5);
    FixedDigitsLess(i, j, 5);
  }

  /** From position 100000 on, the six-digit key sorts before the five-digit ones. */
  lemma OrderKeysWrapAt100000()
    ensures Less(OrderKey(100000), OrderKey(99999))
  {
    assert Decimal(1) == "1";
    assert Decimal(10) == "10";
    assert Decimal(100) == "100";
    assert Decimal(1000) == "1000";
    assert Decimal(10000) == "10000";
    assert Decimal(100000) == "100000";
    assert Decimal(9) == "9";
    assert Decimal(99) == "99";
    assert Decimal(999) == "999";
    assert Decimal(9999) == "9999";
    assert Decimal(99999) == "99999";
  }

  /**
   * The loop of `apply` over one list: each element, in order, written into
   * a fresh map under its key.
   */
  method ConvertList(list: seq<Json>) returns (r: Option<map<string, Json>>)
    ensures r == Convert(list)
  {
    var entries: map<string, Json> := map[];
    for i := 0 to |list|
      invariant Convert(list[..i]) == Some(entries)
    {
      assert list[..i + 1][..i] == list[..i];
      var key := ElementKey(list[i]);
      if key.None? {
        ConvertFails(list);
        return None;
      }
      entries := entries[key.value := ElementEntry(list[i], i)];
    }
    assert list[..|list|] == list;
    r := Some(entries);
  }

  // ---------------------------------------------------------------------
  // The migration "arrays-to-maps"
  // ---------------------------------------------------------------------

  /** `Array.isArray(doc.columns) || Array.isArray(doc.rows)`. */
  predicate Needed(doc: Tree)
  {
    ("columns" in doc && doc["columns"].Arr?) || ("rows" in doc && doc["rows"].Arr?)
  }

  /** One region rebuilt as a map when it is a list; left alone otherwise. */
  function ConvertRegion(doc: Tree, region: string): Option<Tree>
  {
    if region in doc && doc[region].Arr? then
      match Convert(doc[region].items)
      case None => None
      case Some(m) => Some(doc[region := Obj(m)])
    else Some(doc)
  }

  /** The transform of "arrays-to-maps": `columns`, then `rows`. */
  function ArraysToMaps(doc: Tree): Option<Tree>
  {
    match ConvertRegion(doc, "columns")
    case None => None
    case Some(d) => ConvertRegion(d, "rows")
  }

  /**
   * After the transform, each region that was a list is the map its
   * conversion gives and each other region is as it was; every other
   * top-level entry is untouched. The transform throws exactly when one of
   * the lists holds a `null`.
   */
  lemma ArraysToMapsEffect(doc: Tree)
    ensures ArraysToMaps(doc).None? <==>
              exists r :: r in {"columns", "rows"} && r in doc && doc[r].Arr? && Convert(doc[r].items).None?
    ensures ArraysToMaps(doc).Some? ==>
              var d := ArraysToMaps(doc).value;
              && d.Keys == doc.Keys
              && (forall k :: k in doc && k != "columns" && k != "rows" ==> d[k] == doc[k])
              && (forall r :: r in {"columns", "rows"} && r in doc ==>
                    if doc[r].Arr? then Convert(doc[r].items).Some? && d[r] == Obj(Convert(doc[r].items).value)
                    else d[r] == doc[r])
  {
  }

  /** After the transform neither region is a list, so the migration is no longer needed. */
  lemma ArraysToMapsClearsNeeded(doc: Tree)
    requires ArraysToMaps(doc).Some?
    ensures !Needed(ArraysToMaps(doc).value)
  {
    ArraysToMapsEffect(doc);
  }

  /** `apply`: rebuild `columns`, then `rows`, each only when it is a list. */
  method ApplyArraysToMaps(doc: Tree) returns (r: Option<Tree>)
    ensures r == ArraysToMaps(doc)
  {
    var d := doc;
    if "columns" in d && d["columns"].Arr? {
      var cols := ConvertList(d["columns"].items);
      if cols.None? {
        return None;
      }
      d := d["columns" := Obj(cols.value)];
    }
    if "rows" in d && d["rows"].Arr? {
      var rows := ConvertList(d["rows"].items);
      if rows.None? {
        return None;
      }
      d := d["rows" := Obj(rows.value)];
    }
    r := Some(d);
  }

  // ---------------------------------------------------------------------
  // The registry and the driver
  // ---------------------------------------------------------------------

  datatype Migration = Migration(name: string, needed: Tree -> bool, apply: Tree -> Option<Tree>)

  function Registry(): seq<Migration>
  {
    [Migration("arrays-to-maps", Needed, ArraysToMaps)]
  }

  /**
   * The migrations in order: each whose test holds on the document as it
   * stands is applied and its name recorded; a transform that throws makes
   * the whole run throw.
   */
  function RunMigrations(ms: seq<Migration>, doc: Tree): Option<(Tree, seq<string>)>
    decreases |ms|
  {
    if |ms| == 0 then Some((doc, []))
    else if ms[0].needed(doc) then
      match ms[0].apply(doc)
      case None => None
      case Some(d) =>
        match RunMigrations(ms[1..], d)
        case None => None
        case Some(res) => Some((res.0, [ms[0].name] + res.1))
    else RunMigrations(ms[1..], doc)
  }

  /** When no migration is needed, any registry returns the document itself and applies nothing. */
  lemma {:induction false} NothingNeeded(ms: seq<Migration>, doc: Tree)
    requires forall i :: 0 <= i < |ms| ==> !ms[i].needed(doc)
    ensures RunMigrations(ms, doc) == Some((doc, []))
    decreases |ms|
  {
    if |ms| > 0 {
      NothingNeeded(ms[1..], doc);
    }
  }

  function Migrate(doc: Tree): Option<(Tree, seq<string>)>
  {
    RunMigrations(Registry(), doc)
  }

  /**
   * The run records "arrays-to-maps" exactly when its test held, and the
   * document is then the transform's result; it throws exactly when the
   * transform does.
   */
  lemma MigrateApplies(doc: Tree)
    ensures !Needed(doc) ==> Migrate(doc) == Some((doc, []))
    ensures Needed(doc) ==>
              Migrate(doc) == (if ArraysToMaps(doc).None? then None
                               else Some((ArraysToMaps(doc).value, ["arrays-to-maps"])))
  {
    var m := Registry()[0];
    assert Registry()[1..] == [];
    assert m.needed(doc) == Needed(doc) && m.apply(doc) == ArraysToMaps(doc);
    if Needed(doc) && ArraysToMaps(doc).Some? {
      assert RunMigrations([], ArraysToMaps(doc).value) == Some((ArraysToMaps(doc).value, []));
      assert [m.name] + [] == ["arrays-to-maps"];
    }
  }

  /** A second run applies nothing and returns its input: migration is idempotent. */
  lemma MigrateIdempotent(doc: Tree)
    requires Migrate(doc).Some?
    ensures Migrate(Migrate(doc).value.0) == Some((Migrate(doc).value.0, []))
  {
    MigrateApplies(doc);
    if Needed(doc) {
      ArraysToMapsClearsNeeded(doc);
    }
    MigrateApplies(Migrate(doc).value.0);
  }

  /** The result of a run with `applied` already recorded before it. */
  function After(applied: seq<string>, r: Option<(Tree, seq<string>)>): Option<(Tree, seq<string>)>
  {
    if r.None? then None else Some((r.value.0, applied + r.value.1))
  }

  /** `migrateDoc`: the registered migrations in order, through the transactional change. */
  method MigrateDoc(doc: Tree) returns (r: Option<(Tree, seq<string>)>)
    ensures r == Migrate(doc)
  {
    var ms := Registry();
    var current := doc;
    var applied: seq<string> := [];
    assert ms[0..] == ms;
    assert After(applied, Migrate(doc)) == Migrate(doc) by {
      if Migrate(doc).Some? {
        assert [] + Migrate(doc).value.1 == Migrate(doc).value.1;
      }
    }
    for i := 0 to |ms|
      invariant After(applied, RunMigrations(ms[i..], current)) == Migrate(doc)
    {
      assert ms[i..][1..] == ms[i + 1..];
      var m := ms[i];
      if m.needed(current) {
        var next := m.apply(current);
        if next.None? {
          return None;
        }
        current := next.value;
        ghost var rest := RunMigrations(ms[i + 1..], current);
        if rest.Some? {
          assert applied + ([m.name] + rest.value.1) == (applied + [m.name]) + rest.value.1;
        }
        applied := applied + [m.name];
      }
    }
    assert ms[|ms|..] == [];
    assert applied + [] == applied;
    r := Some((current, applied));
  }
}
