/** A many-to-many join table such as Favorite, ShoppingCart or Subscription,
    and the toggle endpoint built on it (`many2many_relation_action` in
    backend/core/decorators.py, copied by hand into the favorite,
    shopping_cart and subscribe views).

    A row links an acting user to a target (a recipe or another user) and
    carries the auto-increment primary key the database gives it. */
module Relation {

  import opened Common

  datatype Row = Row(id: nat, actor: nat, target: nat)

  /** The rows of the table and the next value of its id sequence. */
  datatype Table = Table(rows: seq<Row>, nextId: nat)

  function PairOf(r: Row): (nat, nat)
  {
    (r.actor, r.target)
  }

  /** The invariant the database keeps: ids below the sequence counter, primary
      keys unique, and the pair `(actor, target)` unique (`unique_together`). */
  predicate Valid(t: Table)
  {
    && (forall r :: r in t.rows ==> r.id < t.nextId)
    && (forall r1, r2 :: r1 in t.rows && r2 in t.rows && r1.id == r2.id ==> r1 == r2)
    && (forall r1, r2 :: r1 in t.rows && r2 in t.rows && PairOf(r1) == PairOf(r2) ==> r1 == r2)
  }

  /** The relation the table stores. */
  function Pairs(t: Table): set<(nat, nat)>
  {
    set r | r in t.rows :: PairOf(r)
  }

  predicate Related(t: Table, actor: nat, target: nat)
  {
    (actor, target) in Pairs(t)
  }

  /** The first row linking `actor` to `target`, if any. */
  function Find(rows: seq<Row>, actor: nat, target: nat): (found: Option<Row>)
    ensures found.Some? ==> found.value in rows && PairOf(found.value) == (actor, target)
    ensures found.None? ==> forall r :: r in rows ==> PairOf(r) != (actor, target)
  {
    if |rows| == 0 then None
    else if PairOf(rows[0]) == (actor, target) then Some(rows[0])
    else Find(rows[1..], actor, target)
  }

  /** The rows of `rows` whose id is not `id`, in order. */
  function Without(rows: seq<Row>, id: nat): (kept: seq<Row>)
    ensures forall r :: r in kept <==> r in rows && r.id != id
    ensures |kept| <= |rows|
  {
    if |rows| == 0 then []
    else if rows[0].id == id then Without(rows[1..], id)
    else [rows[0]] + Without(rows[1..], id)
  }

  /** The rows whose actor is not in `actors` and whose target is not in
      `targets`: what an `on_delete=CASCADE` leaves behind. */
  function Surviving(rows: seq<Row>, actors: set<nat>, targets: set<nat>): (kept: seq<Row>)
    ensures forall r :: r in kept <==> r in rows && r.actor !in actors && r.target !in targets
  {
    if |rows| == 0 then []
    else if rows[0].actor in actors || rows[0].target in targets then Surviving(rows[1..], actors, targets)
    else [rows[0]] + Surviving(rows[1..], actors, targets)
  }

  /** The cascade that deleting the given actors and targets causes in the table. */
  function Cascade(t: Table, actors: set<nat>, targets: set<nat>): (t': Table)
    ensures Valid(t) ==> Valid(t')
    ensures forall p :: p in Pairs(t') <==> p in Pairs(t) && p.0 !in actors && p.1 !in targets
  {
    Table(Surviving(t.rows, actors, targets), t.nextId)
  }

  /** A cascade on a target that no row names leaves the table as it was. */
  lemma CascadeMissesAll(t: Table, target: nat)
    requires forall p :: p in Pairs(t) ==> p.1 != target
    ensures Cascade(t, {}, {target}) == t
  {
    assert forall r :: r in t.rows ==> PairOf(r) in Pairs(t);
    SurvivingAll(t.rows, target);
  }

  lemma {:induction false} SurvivingAll(rows: seq<Row>, target: nat)
    requires forall r :: r in rows ==> r.target != target
    ensures Surviving(rows, {}, {target}) == rows
  {
    if |rows| > 0 {
      assert rows[0] in rows;
      SurvivingAll(rows[1..], target);
      assert rows == [rows[0]] + rows[1..];
    }
  }

  /** `row.delete()`: deletes by primary key. */
  function DeleteRow(t: Table, id: nat): (t': Table)
    ensures forall r :: r in t'.rows <==> r in t.rows && r.id != id
    ensures t'.nextId == t.nextId
  {
    Table(Without(t.rows, id), t.nextId)
  }

  datatype Fetched = Fetched(table: Table, row: Row, created: bool)

  /** `get_or_create(actor=…, target=…)`: the existing row, or a new one inserted
      under the next id. */
  function GetOrCreate(t: Table, actor: nat, target: nat): (f: Fetched)
    requires Valid(t)
    ensures Valid(f.table)
    ensures PairOf(f.row) == (actor, target) && f.row in f.table.rows
    ensures f.created <==> !Related(t, actor, target)
    ensures !f.created ==> f.table == t
    ensures f.created ==> Pairs(f.table) == Pairs(t) + {(actor, target)}
    ensures f.created ==> f.row.id == t.nextId && f.table.nextId == t.nextId + 1
    ensures f.created ==> forall r :: r in f.table.rows <==> r in t.rows || r == f.row
  {
    match Find(t.rows, actor, target)
    case Some(row) => Fetched(t, row, false)
    case None =>
      var row := Row(t.nextId, actor, target);
      var t' := Table(t.rows + [row], t.nextId + 1);
      assert Pairs(t') == Pairs(t) + {(actor, target)} by {
        assert forall r :: r in t'.rows <==> r in t.rows || r == row;
      }
      Fetched(t', row, true)
  }

  /** Deleting the row of a pair removes exactly that pair from the relation. */
  lemma DeleteRemovesPair(t: Table, row: Row)
    requires Valid(t) && row in t.rows
    ensures Valid(DeleteRow(t, row.id))
    ensures Pairs(DeleteRow(t, row.id)) == Pairs(t) - {PairOf(row)}
  {
    var t' := DeleteRow(t, row.id);
    forall p | p in Pairs(t) - {PairOf(row)}
      ensures p in Pairs(t')
    {
      var r :| r in t.rows && PairOf(r) == p;
      assert r.id != row.id;
    }
  }

  /** The toggle, once the target has been looked up. POST on an absent pair
      creates it (201, serializing the target); POST on a present pair is
      rejected with `postExists`. DELETE deletes the row `get_or_create` returned:
      the existing one (204), or the one it has just created, in which case the
      request is rejected with `deleteMissing`. */
  function Toggle(t: Table, targets: set<nat>, actor: nat, target: Option<nat>, m: Method,
                  postExists: string, deleteMissing: string): (res: (Table, Response))
    requires Valid(t)
    ensures Valid(res.0)
    ensures target.None? || target.value !in targets ==> res == (t, NotFound404)
    ensures target.Some? ==> Pairs(res.0) <= Pairs(t) + {(actor, target.value)}
    ensures target.Some? && target.value in targets ==>
      var pair := (actor, target.value);
      && (m == Post && pair !in Pairs(t) ==>
            Pairs(res.0) == Pairs(t) + {pair} && res.1 == Created201(target.value))
      && (m == Post && pair in Pairs(t) ==> res == (t, BadRequest400(postExists)))
      && (m == Delete && pair in Pairs(t) ==>
            Pairs(res.0) == Pairs(t) - {pair} && res.1 == NoContent204)
      && (m == Delete && pair !in Pairs(t) ==>
            res.0 == Table(t.rows, t.nextId + 1) && res.1 == BadRequest400(deleteMissing))
  {
    if target.None? || target.value !in targets then (t, NotFound404)
    else
      var f := GetOrCreate(t, actor, target.value);
      match m
      case Delete =>
        var t' := DeleteRow(f.table, f.row.id);
        DeleteRemovesPair(f.table, f.row);
        if f.created then
          assert t'.rows == t.rows by { WithoutFresh(t.rows, f.row); }
          (t', BadRequest400(deleteMissing))
        else (t', NoContent204)
      case Post =>
        if f.created then (f.table, Created201(target.value))
        else (f.table, BadRequest400(postExists))
  }

  /** What a toggle request on an existing target does to the relation, and
      what it answers, for each method and each prior state of the pair. */
  predicate Toggled(before: Table, after: Table, res: Response, actor: nat, target: nat, m: Method,
                    postExists: string, deleteMissing: string)
  {
    var pair := (actor, target);
    && (m == Post && pair !in Pairs(before) ==> Pairs(after) == Pairs(before) + {pair} && res == Created201(target))
    && (m == Post && pair in Pairs(before) ==> after == before && res == BadRequest400(postExists))
    && (m == Delete && pair in Pairs(before) ==> Pairs(after) == Pairs(before) - {pair} && res == NoContent204)
    && (m == Delete && pair !in Pairs(before) ==> Pairs(after) == Pairs(before) && res == BadRequest400(deleteMissing))
  }

  lemma ToggleToggled(t: Table, targets: set<nat>, actor: nat, target: nat, m: Method,
                      postExists: string, deleteMissing: string)
    requires Valid(t)
    ensures var (t', r) := Toggle(t, targets, actor, Some(target), m, postExists, deleteMissing);
            target in targets ==> Toggled(t, t', r, actor, target, m, postExists, deleteMissing)
  {
    var (t', r) := Toggle(t, targets, actor, Some(target), m, postExists, deleteMissing);
    if target in targets && m == Delete && !Related(t, actor, target) {
      assert t'.rows == t.rows;
    }
  }

  /** Deleting a row just appended under an unused id gives the old rows back. */
  lemma {:induction false} WithoutFresh(rows: seq<Row>, row: Row)
    requires forall r :: r in rows ==> r.id < row.id
    ensures Without(rows + [row], row.id) == rows
  {
    if |rows| == 0 {
      assert Without([row], row.id) == Without([], row.id);
    } else {
      assert (rows + [row])[1..] == rows[1..] + [row];
      WithoutFresh(rows[1..], row);
    }
  }

  /** The target key of the decorated view: `pk`, or `id` when `pk` is absent. */
  function TargetKey(kwargs: map<string, nat>): (key: Option<nat>)
    ensures "pk" in kwargs ==> key == Some(kwargs["pk"])
    ensures "pk" !in kwargs && "id" in kwargs ==> key == Some(kwargs["id"])
    ensures "pk" !in kwargs && "id" !in kwargs ==> key == None
  {
    if "pk" in kwargs then Some(kwargs["pk"])
    else if "id" in kwargs then Some(kwargs["id"])
    else None
  }

  /** The view built by `many2many_relation_action`: the decorated function runs
      first and any response it gives wins; otherwise the toggle runs on the
      target named by `pk` (or `id`). A missing key filters on `pk=None`, which
      matches nothing. */
  function RelationAction(t: Table, targets: set<nat>, actor: nat, kwargs: map<string, nat>,
                          m: Method, viewResponse: Option<Response>,
                          postExists: string, deleteMissing: string): (res: (Table, Response))
    requires Valid(t)
    ensures Valid(res.0)
    ensures viewResponse.Some? ==> res == (t, viewResponse.value)
    ensures viewResponse.None? && "pk" !in kwargs && "id" !in kwargs ==> res == (t, NotFound404)
    ensures viewResponse.None? ==>
      res == Toggle(t, targets, actor, TargetKey(kwargs), m, postExists, deleteMissing)
  {
    match viewResponse
    case Some(r) => (t, r)
    case None => Toggle(t, targets, actor, TargetKey(kwargs), m, postExists, deleteMissing)
  }

  // ---------------------------------------------------------------------------
  // Properties of the two-state machine

  /** POST then DELETE on an absent pair leaves the same rows (the id sequence has
      advanced by one). */
  lemma PostThenDeleteRestores(t: Table, targets: set<nat>, actor: nat, target: nat,
                               postExists: string, deleteMissing: string)
    requires Valid(t) && target in targets && !Related(t, actor, target)
    ensures var (t1, r1) := Toggle(t, targets, actor, Some(target), Post, postExists, deleteMissing);
            var (t2, r2) := Toggle(t1, targets, actor, Some(target), Delete, postExists, deleteMissing);
            r1 == Created201(target) && r2 == NoContent204 && Pairs(t2) == Pairs(t)
            && t2.rows == t.rows
  {
    var f := GetOrCreate(t, actor, target);
    var t1 := Toggle(t, targets, actor, Some(target), Post, postExists, deleteMissing).0;
    assert t1 == f.table;
    var g := GetOrCreate(t1, actor, target);
    assert g.row == f.row by {
      assert forall r :: r in t1.rows && PairOf(r) == (actor, target) ==> r == f.row;
    }
    WithoutFresh(t.rows, f.row);
  }

  /** DELETE then POST on a present pair restores the relation. */
  lemma DeleteThenPostRestores(t: Table, targets: set<nat>, actor: nat, target: nat,
                               postExists: string, deleteMissing: string)
    requires Valid(t) && target in targets && Related(t, actor, target)
    ensures var (t1, r1) := Toggle(t, targets, actor, Some(target), Delete, postExists, deleteMissing);
            var (t2, r2) := Toggle(t1, targets, actor, Some(target), Post, postExists, deleteMissing);
            r1 == NoContent204 && r2 == Created201(target) && Pairs(t2) == Pairs(t)
  {
  }

  /** A second identical request is always rejected, and changes no pair. */
  lemma RepeatedToggleRejected(t: Table, targets: set<nat>, actor: nat, target: nat, m: Method,
                               postExists: string, deleteMissing: string)
    requires Valid(t) && target in targets
    ensures var (t1, r1) := Toggle(t, targets, actor, Some(target), m, postExists, deleteMissing);
            var (t2, r2) := Toggle(t1, targets, actor, Some(target), m, postExists, deleteMissing);
            StatusCode(r2) == 400 && Pairs(t2) == Pairs(t1)
  {
    var (t1, r1) := Toggle(t, targets, actor, Some(target), m, postExists, deleteMissing);
    var (t2, r2) := Toggle(t1, targets, actor, Some(target), m, postExists, deleteMissing);
    ToggleToggled(t, targets, actor, target, m, postExists, deleteMissing);
    ToggleToggled(t1, targets, actor, target, m, postExists, deleteMissing);
    ToggledTwice(t, t1, t2, r1, r2, actor, target, m, postExists, deleteMissing);
  }

  /** Two toggles with the same method: the first leaves the pair in the state
      the method asks for, so the second is refused and changes no pair. */
  lemma ToggledTwice(t0: Table, t1: Table, t2: Table, r1: Response, r2: Response,
                     actor: nat, target: nat, m: Method, postExists: string, deleteMissing: string)
    requires Toggled(t0, t1, r1, actor, target, m, postExists, deleteMissing)
    requires Toggled(t1, t2, r2, actor, target, m, postExists, deleteMissing)
    ensures StatusCode(r2) == 400 && Pairs(t2) == Pairs(t1)
  {
    var pair := (actor, target);
    if m == Post {
      assert pair in Pairs(t1);
    } else {
      assert pair !in Pairs(t1);
    }
  }
}
