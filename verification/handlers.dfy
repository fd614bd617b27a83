/** The catalog page's request handlers, reduced to what they do to the
    page state once the server has answered. Each network round trip is
    an abstract `Reply`: the status flag the browser reports and the body,
    which is absent when it does not parse as JSON; a request that never
    gets an answer (refused connection, thrown error) is `NetworkError`.
    Every failure is only logged, so it leaves the page as it was. */
module Handlers {
  import opened Library

  datatype Option<T> = None | Some(value: T)

  datatype Reply<T> = Reply(ok: bool, body: Option<T>) | NetworkError

  /** The reply has a success status and a body that parsed. */
  predicate Delivered<T>(reply: Reply<T>) {
    reply.Reply? && reply.ok && reply.body.Some?
  }

  /** The reply has a success status; the body is not read. */
  predicate Succeeded<T>(reply: Reply<T>) {
    reply.Reply? && reply.ok
  }

  /** The text fields of the create or edit form. */
  datatype Draft = Draft(title: string, author: string, year: string, genre: string)

  const Blank := Draft("", "", "", "")

  /** The page state the handlers touch: the book list, the create form,
      the id being edited (if any) and the edit form. */
  datatype Page = Page(books: seq<Book>, form: Draft, editing: Option<Id>, editForm: Draft)

  /** The body a create submits, or nothing when a field is empty and the
      handler returns before any request is made. */
  function CreateRequest(p: Page): (body: Option<Draft>)
    ensures body.None? <==>
      p.form.title == "" || p.form.author == "" || p.form.year == "" || p.form.genre == ""
    ensures body.Some? ==> body.value == p.form
  {
    if p.form.title == "" || p.form.author == "" || p.form.year == "" || p.form.genre == "" then None
    else Some(p.form)
  }

  /** Create: on a delivered reply the server's record goes in front of
      the list and the form is cleared; otherwise nothing changes. */
  function AddBook(p: Page, reply: Reply<Book>): (q: Page)
    ensures CreateRequest(p).None? ==> q == p
    ensures !Delivered(reply) ==> q == p
    ensures CreateRequest(p).Some? && Delivered(reply) ==>
      && q.books == Prepend(p.books, reply.body.value)
      && |q.books| == |p.books| + 1
      && q.form == Blank
      && q.editing == p.editing && q.editForm == p.editForm
  {
    if CreateRequest(p).None? then p
    else if Delivered(reply) then p.(books := Prepend(p.books, reply.body.value), form := Blank)
    else p
  }

  /** Update: on a delivered reply the records with the edited id become
      the server's record and edit mode ends; otherwise the page, edit
      mode included, stays as it was. */
  function UpdateBook(p: Page, id: Id, reply: Reply<Book>): (q: Page)
    ensures !Delivered(reply) ==> q == p
    ensures Delivered(reply) ==>
      && q.books == ReplaceById(p.books, id, reply.body.value)
      && |q.books| == |p.books|
      && q.editing == None && q.editForm == Blank
      && q.form == p.form
  {
    if Delivered(reply) then
      p.(books := ReplaceById(p.books, id, reply.body.value), editing := None, editForm := Blank)
    else p
  }

  /** Delete: a success status removes the records with that id. */
  function DeleteBook(p: Page, id: Id, reply: Reply<()>): (q: Page)
    ensures !Succeeded(reply) ==> q == p
    ensures Succeeded(reply) ==>
      && q.books == RemoveById(p.books, id)
      && id !in Ids(q.books)
      && q.form == p.form && q.editing == p.editing && q.editForm == p.editForm
  {
    if Succeeded(reply) then p.(books := RemoveById(p.books, id)) else p
  }

  /** Delete-all: asks the user first; a refusal sends nothing, and a
      success status after a confirmation empties the list. */
  function ClearLibrary(p: Page, confirmed: bool, reply: Reply<()>): (q: Page)
    ensures !confirmed || !Succeeded(reply) ==> q == p
    ensures confirmed && Succeeded(reply) ==> q == p.(books := [])
  {
    if !confirmed then p
    else if Succeeded(reply) then p.(books := [])
    else p
  }

  /** Initial load, as written: the status flag is never consulted, so any
      reply whose body parses replaces the list. */
  function LoadAsWritten(p: Page, reply: Reply<seq<Book>>): (q: Page)
    ensures reply.Reply? && reply.body.Some? ==> q == p.(books := reply.body.value)
    ensures reply.NetworkError? || reply.body.None? ==> q == p
  {
    match reply
    case Reply(_, Some(data)) => p.(books := data)
    case _ => p
  }

  /** An error status whose body parses (here, an empty array) wipes a
      non-empty list even though the load failed. */
  lemma ErrorReplyOverwritesList()
    ensures exists p: Page, reply: Reply<seq<Book>> ::
      !Succeeded(reply) && LoadAsWritten(p, reply).books != p.books
  {
    var p := Page([Book(1, "Il Nome della Rosa", "Eco", 1980, "Romanzo")], Blank, None, Blank);
    var reply: Reply<seq<Book>> := Reply(false, Some([]));
    assert LoadAsWritten(p, reply).books == [];
  }

  /** Initial load, as intended: only a delivered reply replaces the list;
      an error status, an unparsable body or a network error leave it. */
  function Load(p: Page, reply: Reply<seq<Book>>): (q: Page)
    ensures Delivered(reply) ==> q == p.(books := reply.body.value)
    ensures !Delivered(reply) ==> q == p
  {
    if Delivered(reply) then p.(books := reply.body.value) else p
  }

  /** The corrected load agrees with the code as written on every reply
      that has a success status. */
  lemma LoadAgreesOnSuccess(p: Page, reply: Reply<seq<Book>>)
    requires Succeeded(reply)
    ensures Load(p, reply) == LoadAsWritten(p, reply)
  {
  }

  /** Creating a record and then deleting it, both with success replies,
      returns the list it started from, provided the server gave the new
      record an id the list did not hold. */
  lemma AddThenDeleteRestoresList(p: Page, created: Reply<Book>, deleted: Reply<()>)
    requires CreateRequest(p).Some?
    requires Delivered(created) && created.body.value.id !in Ids(p.books)
    requires Succeeded(deleted)
    ensures DeleteBook(AddBook(p, created), created.body.value.id, deleted).books == p.books
  {
    RemoveUndoesPrepend(p.books, created.body.value);
  }

  /** One user action together with the reply it got. */
  datatype Event =
    | Added(created: Reply<Book>)
    | Updated(id: Id, updated: Reply<Book>)
    | Deleted(id: Id, deleted: Reply<()>)
    | Cleared(confirmed: bool, cleared: Reply<()>)
    | Loaded(loaded: Reply<seq<Book>>)

  /** The page after one action and its reply, the initial load taken as
      the code runs it. Only a create touches the create form, and only an
      update touches edit mode. */
  function Step(p: Page, e: Event): (q: Page)
    ensures !e.Added? ==> q.form == p.form
    ensures !e.Updated? ==> q.editing == p.editing && q.editForm == p.editForm
  {
    match e
    case Added(reply) => AddBook(p, reply)
    case Updated(id, reply) => UpdateBook(p, id, reply)
    case Deleted(id, reply) => DeleteBook(p, id, reply)
    case Cleared(confirmed, reply) => ClearLibrary(p, confirmed, reply)
    case Loaded(reply) => LoadAsWritten(p, reply)
  }

  /** The page after the actions in `events`, taken in order. */
  function Run(p: Page, events: seq<Event>): (q: Page)
    ensures (forall k :: 0 <= k < |events| ==> !events[k].Added?) ==> q.form == p.form
    ensures (forall k :: 0 <= k < |events| ==> !events[k].Updated?) ==>
      q.editing == p.editing && q.editForm == p.editForm
    decreases |events|
  {
    if events == [] then p else Step(Run(p, events[..|events| - 1]), events[|events| - 1])
  }

  /** What the page may expect of the server: new records get fresh ids,
      an update answers with the id it was sent to, and every load body
      that parses lists each id once, whatever the reply's status (the
      load installs such a body without looking at the status). */
  ghost predicate ServerKeepsIds(p: Page, e: Event) {
    match e
    case Added(reply) => Delivered(reply) ==> reply.body.value.id !in Ids(p.books)
    case Updated(id, reply) => Delivered(reply) ==> reply.body.value.id == id
    case Loaded(reply) => reply.Reply? && reply.body.Some? ==> UniqueIds(reply.body.value)
    case _ => true
  }

  /** Against such a server, no sequence of actions ever puts two records
      with the same id in the list. */
  lemma {:induction false} RunKeepsUniqueIds(p: Page, events: seq<Event>)
    requires UniqueIds(p.books)
    requires forall k :: 0 <= k < |events| ==> ServerKeepsIds(Run(p, events[..k]), events[k])
    ensures UniqueIds(Run(p, events).books)
  {
    if events != [] {
      var last := |events| - 1;
      var before := Run(p, events[..last]);
      assert events[..last][..last] == events[..last];
      forall k | 0 <= k < |events[..last]|
        ensures ServerKeepsIds(Run(p, events[..last][..k]), events[..last][k])
      {
        assert events[..last][..k] == events[..k];
      }
      RunKeepsUniqueIds(p, events[..last]);
      StepKeepsUniqueIds(before, events[last]);
    }
  }

  lemma StepKeepsUniqueIds(p: Page, e: Event)
    requires UniqueIds(p.books)
    requires ServerKeepsIds(p, e)
    ensures UniqueIds(Step(p, e).books)
  {
    match e
    case Added(reply) =>
      if CreateRequest(p).Some? && Delivered(reply) {
        PrependFresh(p.books, reply.body.value);
      }
    case Updated(id, reply) =>
      if Delivered(reply) {
        ReplaceKeepsIds(p.books, id, reply.body.value);
      }
    case Deleted(id, reply) =>
      if Succeeded(reply) {
        RemoveKeepsUniqueIds(p.books, id);
      }
    case Cleared(_, _) =>
    case Loaded(_) =>
  }
}
