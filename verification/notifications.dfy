/** The notification controller of the school backend: professors create, list,
    update and delete their own notifications, students list every active one.

    The database becomes a `Store` value and each request handler a function from
    (caller, request, store) to (response, store). The caller is what the
    authentication middleware attached to the request, or `None` when it attached
    nothing. */
module Notifications {
  import opened Wrappers
  import opened Text
  import opened Roles

  /** The authenticated user: `req.user` with its `id` and `tipo`. */
  datatype Caller = Caller(id: int, tipo: Tipo)

  /** A `Notification` row. `kind` is the `type` column, a free string in the
      backend (the front end only ever sends one of four values). */
  datatype Notification = Notification(
    professorId: int,
    title: string,
    message: string,
    kind: string,
    isActive: bool,
    createdAt: int)

  /** The tables the controller touches. `professors` maps the `usuarioId` of each
      `Professor` row to the `nome` of its `Usuario`; `nextId` is the next value
      of the autoincrement key of `Notification`. */
  datatype Store = Store(
    professors: map<int, string>,
    notifications: map<int, Notification>,
    nextId: int)

  /** What the database guarantees: every key was handed out by the autoincrement
      counter, and every notification's owner is a professor (foreign key). */
  ghost predicate Valid(st: Store) {
    forall id :: id in st.notifications ==>
      id < st.nextId && st.notifications[id].professorId in st.professors
  }

  /** A notification together with its key, as the list endpoints return it. */
  datatype Row = Row(id: int, note: Notification)

  /** The student-facing shape: no `professorId`, no `is_active`, and the owner's
      name instead. */
  datatype StudentView = StudentView(
    id: int,
    title: string,
    message: string,
    kind: string,
    createdAt: int,
    professorName: string)

  datatype Body =
    | Message(text: string)
    | Record(row: Row)
    | Rows(rows: seq<Row>)
    | Views(views: seq<StudentView>)

  datatype Response = Response(status: int, body: Body)

  /** A handler's result: the HTTP response and the store after the request. */
  datatype Outcome = Outcome(response: Response, store: Store)

  /** The body of `POST /notifications`. */
  datatype CreateRequest = CreateRequest(title: Option<string>, message: Option<string>, kind: Option<string>)

  /** The body of `PUT /notifications/:id`; `None` is a field left out. */
  datatype Patch = Patch(title: Option<string>, message: Option<string>, kind: Option<string>, isActive: Option<bool>)

  const DefaultKind := "aviso"

  const OnlyProfessorsCreate := "Apenas professores podem criar notificações"
  const OnlyProfessorsRoute := "Apenas professores podem acessar esta rota"
  const OnlyStudentsRoute := "Apenas alunos podem acessar esta rota"
  const OnlyProfessorsUpdate := "Apenas professores podem atualizar notificações"
  const OnlyProfessorsDelete := "Apenas professores podem deletar notificações"
  const TitleAndMessageRequired := "Título e mensagem são obrigatórios"
  const ProfessorNotFound := "Professor não encontrado"
  const NotificationNotFound := "Notificação não encontrada"
  const OnlyOwnUpdate := "Você só pode atualizar suas próprias notificações"
  const OnlyOwnDelete := "Você só pode deletar suas próprias notificações"
  const Deleted := "Notificação deletada com sucesso"

  predicate IsProfessor(caller: Option<Caller>) {
    caller.Some? && caller.value.tipo == Professor
  }

  predicate IsStudent(caller: Option<Caller>) {
    caller.Some? && caller.value.tipo == Aluno
  }

  /** A professor with a `Professor` row, the first two checks of every professor route. */
  predicate IsRegisteredProfessor(caller: Option<Caller>, st: Store) {
    IsProfessor(caller) && caller.value.id in st.professors
  }

  /** A request the professor routes may act on: the caller is a registered professor
      and owns notification `id`. */
  predicate MayModify(caller: Option<Caller>, id: int, st: Store) {
    IsRegisteredProfessor(caller, st) && id in st.notifications
    && st.notifications[id].professorId == caller.value.id
  }

  function Reject(status: int, text: string, st: Store): Outcome {
    Outcome(Response(status, Message(text)), st)
  }

  // ---------------------------------------------------------------- create

  /** `create`: role, then title and message, then the professor row; on success one
      notification is inserted under the next key, active, stamped `now`. */
  function Create(caller: Option<Caller>, req: CreateRequest, st: Store, now: int): (o: Outcome)
    ensures !IsProfessor(caller) ==> o == Reject(403, OnlyProfessorsCreate, st)
    ensures IsProfessor(caller) && !(Truthy(req.title) && Truthy(req.message)) ==>
      o == Reject(400, TitleAndMessageRequired, st)
    ensures IsProfessor(caller) && Truthy(req.title) && Truthy(req.message) && caller.value.id !in st.professors ==>
      o == Reject(404, ProfessorNotFound, st)
    ensures o.response.status == 201 <==>
      IsRegisteredProfessor(caller, st) && Truthy(req.title) && Truthy(req.message)
    ensures o.response.status != 201 ==> o.store == st
    ensures o.response.status == 201 ==>
      var id := st.nextId;
      && o.store.notifications.Keys == st.notifications.Keys + {id}
      && o.response.body == Record(Row(id, o.store.notifications[id]))
      && (Valid(st) ==>
            && id !in st.notifications
            && forall k :: k in st.notifications ==> o.store.notifications[k] == st.notifications[k])
      && o.store.notifications[id].professorId == caller.value.id
      && o.store.notifications[id].title == req.title.value
      && o.store.notifications[id].message == req.message.value
      && o.store.notifications[id].kind == req.kind.GetOr(DefaultKind)
      && o.store.notifications[id].isActive
      && o.store.notifications[id].createdAt == now
      && o.store.professors == st.professors
      && o.store.nextId > id
    ensures Valid(st) ==> Valid(o.store)
  {
    if !IsProfessor(caller) then Reject(403, OnlyProfessorsCreate, st)
    else if !Truthy(req.title) || !Truthy(req.message) then Reject(400, TitleAndMessageRequired, st)
    else if caller.value.id !in st.professors then Reject(404, ProfessorNotFound, st)
    else
      var note := Notification(caller.value.id, req.title.value, req.message.value,
                               req.kind.GetOr(DefaultKind), true, now);
      var id := st.nextId;
      Outcome(Response(201, Record(Row(id, note))),
              st.(notifications := st.notifications[id := note], nextId := id + 1))
  }

  // ---------------------------------------------------------------- listing

  /** Which notifications a list endpoint selects. */
  datatype Filter = OwnedBy(professorId: int) | ActiveOnly

  predicate Keeps(f: Filter, n: Notification) {
    match f
    case OwnedBy(p) => n.professorId == p
    case ActiveOnly => n.isActive
  }

  /** `orderBy: { created_at: 'desc' }`. */
  ghost predicate Newest(rows: seq<Row>) {
    forall i, j :: 0 <= i < j < |rows| ==> rows[i].note.createdAt >= rows[j].note.createdAt
  }

  ghost predicate DistinctIds(rows: seq<Row>) {
    forall i, j :: 0 <= i < j < |rows| ==> rows[i].id != rows[j].id
  }

  /** `rows` is what `findMany` with filter `f` and newest-first order returns from
      table `m`: each selected row exactly once, nothing else, newest first. The
      order among rows created at the same instant is left open, as the query
      leaves it. */
  ghost predicate IsListing(rows: seq<Row>, m: map<int, Notification>, f: Filter) {
    && Newest(rows)
    && DistinctIds(rows)
    && (forall r :: r in rows ==> r.id in m && m[r.id] == r.note && Keeps(f, r.note))
    && (forall id :: id in m && Keeps(f, m[id]) ==> Row(id, m[id]) in rows)
  }

  /** Inserts `x` into a newest-first sequence, before the rows it is not older than. */
  function Insert(rows: seq<Row>, x: Row): (r: seq<Row>)
    ensures |r| == |rows| + 1
    ensures forall y :: y in r <==> y in rows || y == x
  {
    if |rows| == 0 || x.note.createdAt >= rows[0].note.createdAt then [x] + rows
    else [rows[0]] + Insert(rows[1..], x)
  }

  /** Insertion keeps a list newest first. */
  lemma {:induction false} InsertNewest(rows: seq<Row>, x: Row)
    requires Newest(rows)
    ensures Newest(Insert(rows, x))
  {
    if |rows| > 0 && x.note.createdAt < rows[0].note.createdAt {
      var t := Insert(rows[1..], x);
      InsertNewest(rows[1..], x);
      assert forall k :: 0 <= k < |t| ==> t[k] in rows[1..] || t[k] == x;
      assert forall k :: 0 <= k < |t| ==> rows[0].note.createdAt >= t[k].note.createdAt by {
        forall k | 0 <= k < |t|
          ensures rows[0].note.createdAt >= t[k].note.createdAt
        {
          if t[k] != x {
            var j :| 0 <= j < |rows[1..]| && rows[1..][j] == t[k];
            assert rows[j + 1] == t[k];
          }
        }
      }
    }
  }

  /** Inserting a row with a new id keeps the ids distinct. */
  lemma {:induction false} InsertDistinct(rows: seq<Row>, x: Row)
    requires DistinctIds(rows) && forall y :: y in rows ==> y.id != x.id
    ensures DistinctIds(Insert(rows, x))
  {
    if |rows| > 0 && x.note.createdAt < rows[0].note.createdAt {
      var t := Insert(rows[1..], x);
      InsertDistinct(rows[1..], x);
      forall k | 0 <= k < |t|
        ensures rows[0].id != t[k].id
      {
        assert t[k] in t;
        if t[k] != x {
          var j :| 0 <= j < |rows[1..]| && rows[1..][j] == t[k];
          assert rows[j + 1] == t[k];
        }
      }
    }
  }

  /** Any key of a non-empty key set. */
  method Pick(s: set<int>) returns (x: int)
    requires s != {}
    ensures x in s
  {
    assert exists y :: y in s by {
      if forall y :: y !in s {
        EmptyIfNoMember(s);
        assert false;
      }
    }
    x :| x in s;
  }

  lemma EmptyIfNoMember(s: set<int>)
    requires forall y :: y !in s
    ensures s == {}
  {
    assert forall y :: y in s <==> y in {};
  }

  /** One `findMany` over table `m`. */
  method Collect(m: map<int, Notification>, f: Filter) returns (rows: seq<Row>)
    ensures IsListing(rows, m, f)
  {
    rows := [];
    var left := m.Keys;
    while left != {}
      invariant left <= m.Keys
      invariant Newest(rows) && DistinctIds(rows)
      invariant forall r :: r in rows ==> r.id in m && r.id !in left && m[r.id] == r.note && Keeps(f, r.note)
      invariant forall id :: id in m && id !in left && Keeps(f, m[id]) ==> Row(id, m[id]) in rows
      decreases left
    {
      var id := Pick(left);
      if Keeps(f, m[id]) {
        InsertNewest(rows, Row(id, m[id]));
        InsertDistinct(rows, Row(id, m[id]));
        rows := Insert(rows, Row(id, m[id]));
      }
      left := left - {id};
    }
  }

  /** Two listings of the same selection hold the same rows, whatever order they
      give to rows of equal age. */
  lemma ListingsAgree(a: seq<Row>, b: seq<Row>, m: map<int, Notification>, f: Filter)
    requires IsListing(a, m, f) && IsListing(b, m, f)
    ensures |a| == |b|
    ensures forall r :: r in a <==> r in b
  {
    DistinctLength(a, b);
    DistinctLength(b, a);
  }

  /** Two listings of the same selection show rows of the same age at every position. */
  lemma ListingsAgreeOnAges(a: seq<Row>, b: seq<Row>, m: map<int, Notification>, f: Filter)
    requires IsListing(a, m, f) && IsListing(b, m, f)
    ensures forall i :: 0 <= i < |a| && i < |b| ==> a[i].note.createdAt == b[i].note.createdAt
  {
    ListingsAgree(a, b, m, f);
    SameAges(a, b);
  }

  /** Two newest-first orderings of the same rows agree on the age at every
      position: they can differ only by swapping rows of equal age. */
  lemma {:induction false} SameAges(a: seq<Row>, b: seq<Row>)
    requires Newest(a) && Newest(b) && DistinctIds(a) && DistinctIds(b)
    requires |a| == |b|
    requires forall r :: r in a <==> r in b
    ensures forall i :: 0 <= i < |a| ==> a[i].note.createdAt == b[i].note.createdAt
    decreases |a|
  {
    if |a| > 0 {
      var j := FirstAtTop(a, b);
      var b' := Without(b, j);
      WithoutKeepsOrder(b, j);
      SameRowsAfterTop(a, b, j);
      SameAges(a[1..], b');
      forall i | 0 <= i < |a|
        ensures a[i].note.createdAt == b[i].note.createdAt
      {
        if i > 0 {
          assert a[i] == a[1..][i - 1];
          if i <= j {
            assert b'[i - 1] == b[i - 1];
          } else {
            assert b'[i - 1] == b[i];
          }
        }
      }
    }
  }

  /** `b` with the row at `j` taken out. */
  function Without(b: seq<Row>, j: int): (r: seq<Row>)
    requires 0 <= j < |b|
    ensures |r| == |b| - 1
    ensures forall k :: 0 <= k < |r| ==> r[k] == (if k < j then b[k] else b[k + 1])
  {
    b[..j] + b[j + 1..]
  }

  lemma WithoutKeepsOrder(b: seq<Row>, j: int)
    requires 0 <= j < |b| && Newest(b) && DistinctIds(b)
    ensures Newest(Without(b, j)) && DistinctIds(Without(b, j))
  {
  }

  /** The newest row of `a` sits in `b` at a position `j`, and every row of `b` up to
      `j` is exactly as old. */
  lemma FirstAtTop(a: seq<Row>, b: seq<Row>) returns (j: int)
    requires Newest(a) && Newest(b) && |a| > 0
    requires forall r :: r in a <==> r in b
    ensures 0 <= j < |b| && b[j] == a[0]
    ensures forall k :: 0 <= k <= j ==> b[k].note.createdAt == a[0].note.createdAt
  {
    assert a[0] in b;
    j :| 0 <= j < |b| && b[j] == a[0];
    assert b[0] in a;
    var top :| 0 <= top < |a| && a[top] == b[0];
  }

  /** Taking the newest row out of both orderings leaves the same rows. */
  lemma SameRowsAfterTop(a: seq<Row>, b: seq<Row>, j: int)
    requires DistinctIds(a) && DistinctIds(b) && |a| > 0
    requires 0 <= j < |b| && b[j] == a[0]
    requires forall r :: r in a <==> r in b
    ensures forall r :: r in a[1..] <==> r in Without(b, j)
  {
    var b' := Without(b, j);
    forall r | r in a[1..]
      ensures r in b'
    {
      var i :| 1 <= i < |a| && a[i] == r;
      assert r in b;
      var k :| 0 <= k < |b| && b[k] == r;
      if k < j { assert b'[k] == r; } else { assert b'[k - 1] == r; }
    }
    forall r | r in b'
      ensures r in a[1..]
    {
      var k :| 0 <= k < |b'| && b'[k] == r;
      assert r in b;
      var i :| 0 <= i < |a| && a[i] == r;
      assert a[1..][i - 1] == r;
    }
  }

  lemma {:induction false} DistinctLength(a: seq<Row>, b: seq<Row>)
    requires DistinctIds(a)
    requires forall r :: r in a ==> r in b
    ensures |a| <= |b|
  {
    var ids := set r | r in a :: r.id;
    var idsB := set r | r in b :: r.id;
    assert ids <= idsB;
    CardIds(a);
    IdsBound(b);
    assert |ids| <= |idsB| by { SubsetCard(ids, idsB); }
  }

  lemma {:induction false} CardIds(a: seq<Row>)
    requires DistinctIds(a)
    ensures |set r | r in a :: r.id| == |a|
  {
    if |a| > 0 {
      var t := a[1..];
      assert DistinctIds(t);
      CardIds(t);
      var s := set r | r in t :: r.id;
      assert (set r | r in a :: r.id) == s + {a[0].id};
      assert a[0].id !in s;
    }
  }

  lemma {:induction false} IdsBound(b: seq<Row>)
    ensures |set r | r in b :: r.id| <= |b|
  {
    if |b| > 0 {
      var t := b[1..];
      IdsBound(t);
      assert (set r | r in b :: r.id) == (set r | r in t :: r.id) + {b[0].id};
    }
  }

  lemma SubsetCard(a: set<int>, b: set<int>)
    requires a <= b
    ensures |a| <= |b|
  {
    assert b == a + (b - a);
  }

  /** `listByProfessor`: role, then the professor row, then every notification the
      caller owns, active or not, newest first. Reads only. */
  method ListByProfessor(caller: Option<Caller>, st: Store) returns (resp: Response)
    ensures !IsProfessor(caller) ==> resp == Response(403, Message(OnlyProfessorsRoute))
    ensures IsProfessor(caller) && caller.value.id !in st.professors ==>
      resp == Response(404, Message(ProfessorNotFound))
    ensures resp.status == 200 <==> IsRegisteredProfessor(caller, st)
    ensures resp.status == 200 ==>
      resp.body.Rows? && IsListing(resp.body.rows, st.notifications, OwnedBy(caller.value.id))
  {
    if !IsProfessor(caller) {
      return Response(403, Message(OnlyProfessorsRoute));
    }
    if caller.value.id !in st.professors {
      return Response(404, Message(ProfessorNotFound));
    }
    var rows := Collect(st.notifications, OwnedBy(caller.value.id));
    resp := Response(200, Rows(rows));
  }

  /** The student projection of one row: the owner's name replaces `professorId`,
      and `is_active` is dropped. */
  function Project(professors: map<int, string>, r: Row): (v: StudentView)
    requires r.note.professorId in professors
    ensures v.id == r.id && v.title == r.note.title && v.message == r.note.message
    ensures v.kind == r.note.kind && v.createdAt == r.note.createdAt
    ensures v.professorName == professors[r.note.professorId]
  {
    StudentView(r.id, r.note.title, r.note.message, r.note.kind, r.note.createdAt,
                professors[r.note.professorId])
  }

  /** `listForStudent`: only the role check, then every active notification of every
      professor, newest first, each projected for students. The store invariant
      stands for the foreign key the `include` of the owner relies on. */
  method ListForStudent(caller: Option<Caller>, st: Store) returns (resp: Response)
    requires Valid(st)
    ensures !IsStudent(caller) ==> resp == Response(403, Message(OnlyStudentsRoute))
    ensures IsStudent(caller) ==> resp.status == 200 && resp.body.Views?
    ensures resp.status == 200 ==>
      (resp.body.Views? &&
       exists rows :: IsListing(rows, st.notifications, ActiveOnly) && StudentListing(resp.body.views, rows, st))
  {
    if !IsStudent(caller) {
      return Response(403, Message(OnlyStudentsRoute));
    }
    var rows := Collect(st.notifications, ActiveOnly);
    var views := seq(|rows|, i requires 0 <= i < |rows| => Project(st.professors, rows[i]));
    assert StudentListing(views, rows, st);
    resp := Response(200, Views(views));
  }

  /** `views` is `rows`, one for one and in the same order, seen by a student. */
  ghost predicate StudentListing(views: seq<StudentView>, rows: seq<Row>, st: Store) {
    && |views| == |rows|
    && forall i :: 0 <= i < |rows| ==>
         rows[i].note.professorId in st.professors && views[i] == Project(st.professors, rows[i])
  }

  /** A student's list shows only active notifications, shows every one of them
      with its owner's name, and is newest first. */
  lemma StudentListShowsExactlyActive(views: seq<StudentView>, rows: seq<Row>, st: Store)
    requires IsListing(rows, st.notifications, ActiveOnly) && StudentListing(views, rows, st)
    ensures forall i :: 0 <= i < |views| ==>
      views[i].id in st.notifications && st.notifications[views[i].id].isActive
    ensures forall id :: id in st.notifications && st.notifications[id].isActive ==>
      exists i :: (0 <= i < |views| && views[i].id == id
        && views[i].professorName == st.professors[st.notifications[id].professorId])
    ensures forall i, j :: 0 <= i < j < |views| ==> views[i].createdAt >= views[j].createdAt
  {
    forall i | 0 <= i < |views|
      ensures views[i].id in st.notifications && st.notifications[views[i].id].isActive
    {
      assert rows[i] in rows;
    }
    forall id | id in st.notifications && st.notifications[id].isActive
      ensures exists i :: (0 <= i < |views| && views[i].id == id
        && views[i].professorName == st.professors[st.notifications[id].professorId])
    {
      var r := Row(id, st.notifications[id]);
      assert r in rows;
      var i :| 0 <= i < |rows| && rows[i] == r;
      assert views[i].id == id;
    }
  }

  /** A notification just created shows in its owner's list and, being active, in
      every student's list. */
  lemma CreatedIsListed(caller: Option<Caller>, req: CreateRequest, st: Store, now: int,
                        own: seq<Row>, all: seq<Row>)
    requires Create(caller, req, st, now).response.status == 201
    requires IsListing(own, Create(caller, req, st, now).store.notifications, OwnedBy(caller.value.id))
    requires IsListing(all, Create(caller, req, st, now).store.notifications, ActiveOnly)
    ensures exists r :: r in own && r.id == st.nextId && r.note.title == req.title.value
    ensures exists r :: r in all && r.id == st.nextId && r.note.message == req.message.value
  {
    var m := Create(caller, req, st, now).store.notifications;
    assert Row(st.nextId, m[st.nextId]) in own;
    assert Row(st.nextId, m[st.nextId]) in all;
  }

  // ---------------------------------------------------------------- update

  /** The `data` of `prisma.notification.update`: a text field is written only when
      it is given non-empty, `is_active` whenever it is given at all (false too). */
  function ApplyPatch(n: Notification, p: Patch): (r: Notification)
    ensures r.professorId == n.professorId && r.createdAt == n.createdAt
    ensures Truthy(p.title) ==> r.title == p.title.value
    ensures !Truthy(p.title) ==> r.title == n.title
    ensures Truthy(p.message) ==> r.message == p.message.value
    ensures !Truthy(p.message) ==> r.message == n.message
    ensures Truthy(p.kind) ==> r.kind == p.kind.value
    ensures !Truthy(p.kind) ==> r.kind == n.kind
    ensures r.isActive == p.isActive.GetOr(n.isActive)
  {
    n.(title := if Truthy(p.title) then p.title.value else n.title,
       message := if Truthy(p.message) then p.message.value else n.message,
       kind := if Truthy(p.kind) then p.kind.value else n.kind,
       isActive := if p.isActive.Some? then p.isActive.value else n.isActive)
  }

  /** Applying a patch a second time changes nothing. */
  lemma ApplyPatchIdempotent(n: Notification, p: Patch)
    ensures ApplyPatch(ApplyPatch(n, p), p) == ApplyPatch(n, p)
  {
  }

  /** `update`: role (403), professor row (404), notification (404), owner (403),
      then the patch, on that one notification only. */
  function Update(caller: Option<Caller>, id: int, p: Patch, st: Store): (o: Outcome)
    ensures !IsProfessor(caller) ==> o.response == Response(403, Message(OnlyProfessorsUpdate))
    ensures IsProfessor(caller) && caller.value.id !in st.professors ==>
      o.response == Response(404, Message(ProfessorNotFound))
    ensures IsRegisteredProfessor(caller, st) && id !in st.notifications ==>
      o.response == Response(404, Message(NotificationNotFound))
    ensures IsRegisteredProfessor(caller, st) && id in st.notifications
            && st.notifications[id].professorId != caller.value.id ==>
      o.response == Response(403, Message(OnlyOwnUpdate))
    ensures o.response.status == 200 <==> MayModify(caller, id, st)
    ensures o.response.status != 200 ==> o.store == st
    ensures o.response.status == 200 ==>
      && o.store.notifications.Keys == st.notifications.Keys
      && o.store.notifications[id] == ApplyPatch(st.notifications[id], p)
      && (forall k :: k in st.notifications && k != id ==> o.store.notifications[k] == st.notifications[k])
      && o.store.professors == st.professors && o.store.nextId == st.nextId
      && o.response.body == Record(Row(id, o.store.notifications[id]))
    ensures Valid(st) ==> Valid(o.store)
  {
    if !IsProfessor(caller) then Reject(403, OnlyProfessorsUpdate, st)
    else if caller.value.id !in st.professors then Reject(404, ProfessorNotFound, st)
    else if id !in st.notifications then Reject(404, NotificationNotFound, st)
    else if st.notifications[id].professorId != caller.value.id then Reject(403, OnlyOwnUpdate, st)
    else
      var updated := ApplyPatch(st.notifications[id], p);
      Outcome(Response(200, Record(Row(id, updated))),
              st.(notifications := st.notifications[id := updated]))
  }

  /** Sending the same update twice leaves the store as sending it once. */
  lemma UpdateIdempotent(caller: Option<Caller>, id: int, p: Patch, st: Store)
    ensures Update(caller, id, p, Update(caller, id, p, st).store).store == Update(caller, id, p, st).store
  {
    var once := Update(caller, id, p, st).store;
    if MayModify(caller, id, st) {
      ApplyPatchIdempotent(st.notifications[id], p);
      assert once.notifications[id := ApplyPatch(once.notifications[id], p)] == once.notifications;
    }
  }

  /** Deactivating hides a notification from every later student listing;
      reactivating shows it again. */
  lemma ActivationControlsVisibility(caller: Option<Caller>, id: int, p: Patch, st: Store,
                                     rows: seq<Row>)
    requires p.isActive.Some?
    requires Update(caller, id, p, st).response.status == 200
    requires IsListing(rows, Update(caller, id, p, st).store.notifications, ActiveOnly)
    ensures (exists r :: r in rows && r.id == id) <==> p.isActive.value
  {
    var m := Update(caller, id, p, st).store.notifications;
    if p.isActive.value {
      assert Row(id, m[id]) in rows;
    }
  }

  /** A professor's urgent notice is active when created, another professor may not
      edit it, and once its owner deactivates it no student list shows it. */
  lemma OwnerDeactivationHidesNotice(st: Store, now: int, a: int, c: int, later: seq<Row>)
    requires Valid(st) && a in st.professors && c in st.professors && a != c
    requires var created := Create(Some(Caller(a, Professor)),
                                   CreateRequest(Some("Prova"), Some("Prova dia 10"), Some("urgente")), st, now);
      IsListing(later, Update(Some(Caller(a, Professor)), st.nextId,
                              Patch(None, None, None, Some(false)), created.store).store.notifications, ActiveOnly)
    ensures var created := Create(Some(Caller(a, Professor)),
                                  CreateRequest(Some("Prova"), Some("Prova dia 10"), Some("urgente")), st, now);
      && created.response.status == 201
      && created.store.notifications[st.nextId].isActive
      && created.store.notifications[st.nextId].kind == "urgente"
      && Update(Some(Caller(c, Professor)), st.nextId, Patch(Some("x"), None, None, None), created.store).response
           == Response(403, Message(OnlyOwnUpdate))
      && forall r :: r in later ==> r.id != st.nextId
  {
    var created := Create(Some(Caller(a, Professor)),
                          CreateRequest(Some("Prova"), Some("Prova dia 10"), Some("urgente")), st, now);
    ActivationControlsVisibility(Some(Caller(a, Professor)), st.nextId,
                                 Patch(None, None, None, Some(false)), created.store, later);
  }

  // ---------------------------------------------------------------- delete

  /** `delete`: the checks of `update` in the same order, then a hard delete of that
      one notification. */
  function Delete(caller: Option<Caller>, id: int, st: Store): (o: Outcome)
    ensures !IsProfessor(caller) ==> o.response == Response(403, Message(OnlyProfessorsDelete))
    ensures IsProfessor(caller) && caller.value.id !in st.professors ==>
      o.response == Response(404, Message(ProfessorNotFound))
    ensures IsRegisteredProfessor(caller, st) && id !in st.notifications ==>
      o.response == Response(404, Message(NotificationNotFound))
    ensures IsRegisteredProfessor(caller, st) && id in st.notifications
            && st.notifications[id].professorId != caller.value.id ==>
      o.response == Response(403, Message(OnlyOwnDelete))
    ensures o.response.status == 200 <==> MayModify(caller, id, st)
    ensures o.response.status != 200 ==> o.store == st
    ensures o.response.status == 200 ==>
      && o.store.notifications.Keys == st.notifications.Keys - {id}
      && (forall k :: k in o.store.notifications ==> o.store.notifications[k] == st.notifications[k])
      && o.store.professors == st.professors && o.store.nextId == st.nextId
      && o.response.body == Message(Deleted)
    ensures Valid(st) ==> Valid(o.store)
  {
    if !IsProfessor(caller) then Reject(403, OnlyProfessorsDelete, st)
    else if caller.value.id !in st.professors then Reject(404, ProfessorNotFound, st)
    else if id !in st.notifications then Reject(404, NotificationNotFound, st)
    else if st.notifications[id].professorId != caller.value.id then Reject(403, OnlyOwnDelete, st)
    else Outcome(Response(200, Message(Deleted)), st.(notifications := st.notifications - {id}))
  }

  /** Once deleted, a notification is gone for every professor: a later update or
      delete of it is a 404, whoever sends it. */
  lemma DeletedStaysGone(caller: Option<Caller>, id: int, st: Store,
                         later: Option<Caller>, p: Patch)
    requires Delete(caller, id, st).response.status == 200
    requires IsRegisteredProfessor(later, st)
    ensures Update(later, id, p, Delete(caller, id, st).store).response
              == Response(404, Message(NotificationNotFound))
    ensures Delete(later, id, Delete(caller, id, st).store).response
              == Response(404, Message(NotificationNotFound))
  {
  }
}
