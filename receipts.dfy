/** The `facturas` table and its three handlers: create, list and delete a
    fuel receipt of the authenticated user. */
module Invoices {
  import opened Common
  import opened Dates
  import Seqs

  /** One row of `facturas`. */
  datatype Receipt = Receipt(
    id: nat,
    owner: nat,
    titulo: string,
    coste: real,
    fecha: Date,
    hora: Time,
    descripcion: string,
    imagenPath: Option<string>)

  /** The body of `POST /facturas`; an absent, `null` or otherwise falsy
      `fecha` or `hora` is `None`. */
  datatype ReceiptRequest = ReceiptRequest(
    titulo: Option<string>,
    coste: Option<real>,
    fecha: Option<Date>,
    hora: Option<Time>,
    descripcion: Option<string>,
    imagenPath: Option<string>)

  /** The columns `GET /facturas` selects (all but the owner). */
  datatype ReceiptView = ReceiptView(
    id: nat,
    titulo: string,
    coste: real,
    fecha: Date,
    hora: Time,
    descripcion: string,
    imagenPath: Option<string>)

  /** The required fields: a non-empty title, a date and a time, and a cost
      that is present, where a cost of 0 counts as present. */
  predicate Complete(req: ReceiptRequest)
  {
    Truthy(req.titulo) && req.coste.Some? && req.fecha.Some? && req.hora.Some?
  }

  /** The row the INSERT writes; `descripcion || ''` and `imagenPath || null`. */
  function NewReceipt(id: nat, owner: nat, req: ReceiptRequest): Receipt
    requires Complete(req)
  {
    Receipt(id, owner, req.titulo.value, req.coste.value, req.fecha.value, req.hora.value,
      if Truthy(req.descripcion) then req.descripcion.value else "",
      if Truthy(req.imagenPath) then req.imagenPath else None)
  }

  /** The stored row keeps the request's required fields and applies the
      defaults to the optional ones. */
  lemma NewReceiptFields(id: nat, owner: nat, req: ReceiptRequest)
    requires Complete(req)
    ensures var r := NewReceipt(id, owner, req);
      && r.id == id && r.owner == owner
      && Some(r.titulo) == req.titulo && Some(r.coste) == req.coste
      && Some(r.fecha) == req.fecha && Some(r.hora) == req.hora
      && (r.descripcion == "" <==> !Truthy(req.descripcion))
      && (r.imagenPath.None? <==> !Truthy(req.imagenPath))
      && (Truthy(req.imagenPath) ==> r.imagenPath == req.imagenPath)
  {
  }

  function View(r: Receipt): ReceiptView
  {
    ReceiptView(r.id, r.titulo, r.coste, r.fecha, r.hora, r.descripcion, r.imagenPath)
  }

  function Views(rs: seq<Receipt>): (vs: seq<ReceiptView>)
    ensures |vs| == |rs| && forall k :: 0 <= k < |rs| ==> vs[k] == View(rs[k])
  {
    seq(|rs|, k requires 0 <= k < |rs| => View(rs[k]))
  }

  /** The rows of one user, in table order. */
  function Owned(rows: seq<Receipt>, uid: nat): seq<Receipt>
  {
    Seqs.Filter((r: Receipt) => r.owner == uid, rows)
  }

  lemma {:induction false} OwnedMembers(rows: seq<Receipt>, uid: nat, r: Receipt)
    ensures r in Owned(rows, uid) <==> r in rows && r.owner == uid
  {
    if r in rows && r.owner == uid {
      Seqs.FilterKeeps((x: Receipt) => x.owner == uid, rows, r);
    }
  }

  /** `(a.fecha, a.hora)` is not later than `(b.fecha, b.hora)`. */
  predicate NotAfter(a: ReceiptView, b: ReceiptView)
  {
    DateLess(a.fecha, b.fecha) || (a.fecha == b.fecha && !TimeLess(b.hora, a.hora))
  }

  lemma NotAfterTotal(a: ReceiptView, b: ReceiptView)
    ensures NotAfter(a, b) || NotAfter(b, a)
  {
  }

  lemma NotAfterTransitive(a: ReceiptView, b: ReceiptView, c: ReceiptView)
    requires NotAfter(a, b) && NotAfter(b, c)
    ensures NotAfter(a, c)
  {
  }

  /** `ORDER BY fecha DESC, hora DESC`. */
  predicate NewestFirst(s: seq<ReceiptView>)
  {
    forall i, j :: 0 <= i < j < |s| ==> NotAfter(s[j], s[i])
  }

  /** Inserts `x` into a list that is newest first, before the first entry
      not later than it. */
  function InsertNewestFirst(x: ReceiptView, s: seq<ReceiptView>): (r: seq<ReceiptView>)
    requires NewestFirst(s)
    ensures multiset(r) == multiset(s) + multiset{x}
    ensures NewestFirst(r)
  {
    if s == [] || NotAfter(s[0], x) then
      InsertFrontKeepsOrder(x, s);
      [x] + s
    else
      var rest := InsertNewestFirst(x, s[1..]);
      InsertBehindKeepsOrder(x, s, rest);
      assert s == [s[0]] + s[1..];
      [s[0]] + rest
  }

  lemma InsertFrontKeepsOrder(x: ReceiptView, s: seq<ReceiptView>)
    requires NewestFirst(s)
    requires s == [] || NotAfter(s[0], x)
    ensures NewestFirst([x] + s)
  {
    var r := [x] + s;
    forall i, j | 0 <= i < j < |r| ensures NotAfter(r[j], r[i]) {
      if i == 0 && j > 1 {
        NotAfterTransitive(s[j - 1], s[0], x);
      }
    }
  }

  lemma InsertBehindKeepsOrder(x: ReceiptView, s: seq<ReceiptView>, rest: seq<ReceiptView>)
    requires s != [] && NewestFirst(s) && !NotAfter(s[0], x)
    requires multiset(rest) == multiset(s[1..]) + multiset{x}
    requires NewestFirst(rest)
    ensures NewestFirst([s[0]] + rest)
  {
    var r := [s[0]] + rest;
    forall j | 0 < j < |r| ensures NotAfter(r[j], s[0]) {
      var y := rest[j - 1];
      assert y in multiset(rest);
      if y == x {
        NotAfterTotal(s[0], x);
      } else {
        assert y in multiset(s[1..]);
        var k :| 0 <= k < |s[1..]| && s[1..][k] == y;
        assert s[k + 1] == y;
      }
    }
  }

  /** Insertion sort into newest-first order. */
  function SortNewestFirst(s: seq<ReceiptView>): (r: seq<ReceiptView>)
    ensures multiset(r) == multiset(s)
    ensures NewestFirst(r)
  {
    if s == [] then []
    else
      assert s == [s[0]] + s[1..];
      InsertNewestFirst(s[0], SortNewestFirst(s[1..]))
  }

  /** A list holding the same entries as another and also newest first
      contains them at the same dates and times (the order the query fixes
      up to ties). */
  lemma SortedListsAgreeOnDates(a: seq<ReceiptView>, b: seq<ReceiptView>, k: nat)
    requires multiset(a) == multiset(b) && NewestFirst(a) && NewestFirst(b)
    requires k < |a|
    ensures |a| == |b| && NotAfter(a[k], b[k]) && NotAfter(b[k], a[k])
  {
    assert |a| == |multiset(a)| == |multiset(b)| == |b|;
    LaterCount(a, b, k);
    LaterCount(b, a, k);
  }

  /** Strictly later than a given entry. */
  predicate Later(x: ReceiptView, y: ReceiptView)
  {
    !NotAfter(x, y)
  }

  /** Two newest-first arrangements of the same entries: the entry at `k`
      of the first is not later than the one at `k` of the second, since
      otherwise `k + 1` entries of the first would be later than it while
      only `k` entries of the second can be. */
  lemma LaterCount(a: seq<ReceiptView>, b: seq<ReceiptView>, k: nat)
    requires multiset(a) == multiset(b) && NewestFirst(a) && NewestFirst(b)
    requires k < |a| == |b|
    ensures NotAfter(a[k], b[k])
  {
    if Later(a[k], b[k]) {
      var pivot := b[k];
      PrefixLater(a, k, pivot);
      SuffixNotLater(b, k);
      assert a == a[..k + 1] + a[k + 1..];
      assert b == b[..k] + b[k..];
      LaterSubset(multiset(a[..k + 1]), multiset(b[..k]), multiset(b[k..]), pivot);
    }
  }

  /** In a newest-first list, the entries up to one later than `pivot` are
      all later than `pivot`. */
  lemma PrefixLater(a: seq<ReceiptView>, k: nat, pivot: ReceiptView)
    requires NewestFirst(a) && k < |a| && Later(a[k], pivot)
    ensures forall x :: x in multiset(a[..k + 1]) ==> Later(x, pivot)
  {
    forall x | x in multiset(a[..k + 1]) ensures Later(x, pivot) {
      var i :| 0 <= i < k + 1 && a[..k + 1][i] == x;
      assert a[i] == x;
      if i < k && NotAfter(x, pivot) {
        NotAfterTransitive(a[k], x, pivot);
      }
    }
  }

  /** In a newest-first list, nothing from position `k` on is later than
      the entry at `k`. */
  lemma SuffixNotLater(b: seq<ReceiptView>, k: nat)
    requires NewestFirst(b) && k < |b|
    ensures forall x :: x in multiset(b[k..]) ==> !Later(x, b[k])
  {
    forall x | x in multiset(b[k..]) ensures !Later(x, b[k]) {
      var i :| 0 <= i < |b[k..]| && b[k..][i] == x;
      assert b[k + i] == x;
    }
  }

  lemma LaterSubset(la: multiset<ReceiptView>, front: multiset<ReceiptView>, back: multiset<ReceiptView>, pivot: ReceiptView)
    requires la <= front + back
    requires forall x :: x in la ==> Later(x, pivot)
    requires forall x :: x in back ==> !Later(x, pivot)
    ensures la <= front
    ensures |la| <= |front|
  {
    forall x | x in la ensures la[x] <= front[x] {
      assert back[x] == 0;
    }
    assert la <= front;
    MultisetSubsetSize(la, front);
  }

  lemma {:induction false} MultisetSubsetSize(a: multiset<ReceiptView>, b: multiset<ReceiptView>)
    requires a <= b
    ensures |a| <= |b|
    decreases |a|
  {
    if a != multiset{} {
      var x :| x in a;
      MultisetSubsetSize(a - multiset{x}, b - multiset{x});
    }
  }

  /** Finds the row with the given `id_factura`. */
  function FindRow(rows: seq<Receipt>, id: nat): (r: Option<Receipt>)
    ensures r.None? <==> forall k :: 0 <= k < |rows| ==> rows[k].id != id
    ensures r.Some? ==> r.value in rows && r.value.id == id
  {
    Seqs.FindFirst((x: Receipt) => x.id == id, rows)
  }

  /** The table with the row of id `id` removed. */
  function WithoutId(rows: seq<Receipt>, id: nat): seq<Receipt>
  {
    Seqs.Filter((x: Receipt) => x.id != id, rows)
  }

  predicate UniqueIds(rows: seq<Receipt>)
  {
    forall i, j :: 0 <= i < j < |rows| ==> rows[i].id != rows[j].id
  }

  /** With unique ids, removing an existing id removes exactly its row and
      keeps every other row in order. */
  lemma WithoutIdRemovesOne(rows: seq<Receipt>, k: nat)
    requires UniqueIds(rows) && k < |rows|
    ensures WithoutId(rows, rows[k].id) == rows[..k] + rows[k + 1..]
  {
    var id := rows[k].id;
    Seqs.FilterDropsOne((x: Receipt) => x.id != id, rows, k);
  }

  /** Removing one row keeps ids distinct and below any bound they had. */
  lemma RemoveKeepsIds(rows: seq<Receipt>, k: nat, bound: nat, s: seq<Receipt>)
    requires k < |rows| && UniqueIds(rows) && s == rows[..k] + rows[k + 1..]
    requires forall i :: 0 <= i < |rows| ==> rows[i].id < bound
    ensures UniqueIds(s)
    ensures forall i :: 0 <= i < |s| ==> s[i].id < bound
  {
    assert forall i :: 0 <= i < |s| ==> s[i] == rows[if i < k then i else i + 1];
  }

  class ReceiptTable {
    var rows: seq<Receipt>
    /** The next `AUTO_INCREMENT` value. */
    var nextId: nat

    ghost predicate Valid()
      reads this
    {
      UniqueIds(rows) && forall k :: 0 <= k < |rows| ==> rows[k].id < nextId
    }

    constructor ()
      ensures Valid() && rows == [] && nextId == 1
    {
      rows := [];
      nextId := 1;
    }

    /** `POST /facturas`: 400 on a missing field, 404 on an unknown user,
        otherwise one new row owned by the caller and its id. */
    method Create(users: Users, email: string, req: ReceiptRequest) returns (r: Result<nat>)
      requires Valid()
      modifies this
      ensures Valid()
      ensures !Complete(req) ==> r == Err(BadRequest)
      ensures Complete(req) && email !in users ==> r == Err(UserNotFound)
      ensures r.Err? ==> rows == old(rows) && nextId == old(nextId)
      ensures Complete(req) && email in users ==>
        && r == Ok(old(nextId))
        && rows == old(rows) + [NewReceipt(old(nextId), users[email], req)]
        && nextId == old(nextId) + 1
    {
      if !Complete(req) {
        return Err(BadRequest);
      }
      if email !in users {
        return Err(UserNotFound);
      }
      var id := nextId;
      rows := rows + [NewReceipt(id, users[email], req)];
      nextId := nextId + 1;
      return Ok(id);
    }

    /** `GET /facturas`: the caller's receipts, newest first. */
    function List(users: Users, email: string): (r: Result<seq<ReceiptView>>)
      reads this
      ensures email !in users <==> r == Err(UserNotFound)
      ensures r.Ok? ==>
        && NewestFirst(r.value)
        && multiset(r.value) == multiset(Views(Owned(rows, users[email])))
    {
      if email !in users then Err(UserNotFound)
      else Ok(SortNewestFirst(Views(Owned(rows, users[email]))))
    }

    /** `DELETE /facturas/:id_factura`: 400 without an id, 404 for an
        unknown user or receipt, 403 for another user's receipt, otherwise
        that one row is removed. */
    method Delete(users: Users, email: string, id: Option<nat>) returns (r: Result<()>)
      requires Valid()
      modifies this`rows
      ensures Valid()
      ensures id.None? ==> r == Err(BadRequest)
      ensures id.Some? && email !in users ==> r == Err(UserNotFound)
      ensures id.Some? && email in users && FindRow(old(rows), id.value).None? ==> r == Err(RecordNotFound)
      ensures (id.Some? && email in users && FindRow(old(rows), id.value).Some?
               && FindRow(old(rows), id.value).value.owner != users[email]) ==> r == Err(Forbidden)
      ensures r.Err? ==> rows == old(rows)
      ensures r.Ok? <==>
        id.Some? && email in users && FindRow(old(rows), id.value).Some?
        && FindRow(old(rows), id.value).value.owner == users[email]
      ensures r.Ok? ==>
        exists k :: 0 <= k < |old(rows)| && old(rows)[k].id == id.value
                    && rows == old(rows)[..k] + old(rows)[k + 1..]
    {
      if id.None? {
        return Err(BadRequest);
      }
      if email !in users {
        return Err(UserNotFound);
      }
      var found := FindRow(rows, id.value);
      if found.None? {
        return Err(RecordNotFound);
      }
      if found.value.owner != users[email] {
        return Err(Forbidden);
      }
      var k :| 0 <= k < |rows| && rows[k] == found.value;
      WithoutIdRemovesOne(rows, k);
      RemoveKeepsIds(rows, k, nextId, rows[..k] + rows[k + 1..]);
      rows := WithoutId(rows, id.value);
      return Ok(());
    }
  }

  /** A receipt created by a user shows up in that user's list and in no
      other user's. */
  lemma CreatedReceiptListed(rows: seq<Receipt>, r: Receipt, uid: nat)
    ensures View(r) in Views(Owned(rows + [r], r.owner))
    ensures uid != r.owner ==> Owned(rows + [r], uid) == Owned(rows, uid)
  {
    Seqs.FilterAppend((x: Receipt) => x.owner == r.owner, rows, [r]);
    Seqs.FilterAppend((x: Receipt) => x.owner == uid, rows, [r]);
    var own := Owned(rows + [r], r.owner);
    assert own[|own| - 1] == r;
  }
}
