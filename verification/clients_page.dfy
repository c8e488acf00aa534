/** The logic of the clients page (app/dashboard/clients/page.tsx): the
    optimistic edits of the cached client list that each mutation makes
    before the server answers, the rollback on error, and the form checks
    that decide whether a mutation is issued. The clock is a parameter
    (`Date.now()` as milliseconds, and its ISO text); the schema's e-mail
    check is given as a predicate. `null` and `undefined` are both `None`. */
module ClientsPage {
  import opened Common
  import opened Types

  /** The cache entry `["clients"]`: the cached list, or nothing cached. */
  type Cache = Option<seq<Client>>

  /** The create form, `ClientCreateInput`. */
  datatype CreateInput = CreateInput(name: string, email: string, phone: Option<string>, notes: Option<string>)

  /** A field of an update: absent from the object, or present with a
      value that may be `null` or `undefined`. Spreading a present field
      overwrites the client's, even with `undefined`. */
  datatype Field = Keep | Put(value: Option<string>)

  /** The edit form, `ClientUpdateInput`; `None` for the name or the email
      means the key is absent. */
  datatype UpdateInput = UpdateInput(name: Option<string>, email: Option<string>, phone: Field, notes: Field)

  /** The cache after `onMutate`, and the snapshot it returns for
      `onError`. */
  datatype Mutated = Mutated(cache: Cache, prev: Cache)

  /** The decimal digits of a number, as template literals print it. */
  function Decimal(n: nat): (s: string)
    ensures |s| > 0 && forall i :: 0 <= i < |s| ==> '0' <= s[i] <= '9'
    ensures n < 10 ==> |s| == 1
    decreases n
  {
    if n < 10 then [('0' as int + n) as char]
    else Decimal(n / 10) + [('0' as int + n % 10) as char]
  }

  /** The number a string of decimal digits denotes. */
  function DecimalValue(s: string): nat
    requires forall i :: 0 <= i < |s| ==> '0' <= s[i] <= '9'
  {
    if |s| == 0 then 0
    else DecimalValue(s[..|s| - 1]) * 10 + (s[|s| - 1] as int - '0' as int)
  }

  /** Reading the digits back gives the number. */
  lemma {:induction false} DecimalRoundTrip(n: nat)
    ensures DecimalValue(Decimal(n)) == n
    decreases n
  {
    if n >= 10 {
      var s := Decimal(n);
      assert s[..|s| - 1] == Decimal(n / 10);
      DecimalRoundTrip(n / 10);
    }
  }

  /** `optimistic-${Date.now()}` */
  function OptimisticId(now: nat): string {
    "optimistic-" + Decimal(now)
  }

  /** Entries created at different milliseconds get different ids. */
  lemma OptimisticIdsDiffer(now1: nat, now2: nat)
    requires now1 != now2
    ensures OptimisticId(now1) != OptimisticId(now2)
  {
    if OptimisticId(now1) == OptimisticId(now2) {
      var p := "optimistic-";
      assert Decimal(now1) == OptimisticId(now1)[|p|..];
      assert Decimal(now2) == OptimisticId(now2)[|p|..];
      DecimalRoundTrip(now1);
      DecimalRoundTrip(now2);
    }
  }

  /** The optimistic client: a temporary id, the owner "me", the input's
      fields with absent phone or notes as `null`, and the two timestamps
      from two separate reads of the clock, creation time first. */
  function OptimisticClient(input: CreateInput, now: nat, createdIso: string, updatedIso: string): (c: Client)
    ensures c.id == OptimisticId(now) && c.userId == "me"
    ensures c.name == input.name && c.email == input.email && c.phone == input.phone && c.notes == input.notes
    ensures c.createdAt == createdIso && c.updatedAt == updatedIso
  {
    Client(OptimisticId(now), "me", input.name, input.email, input.phone, input.notes, createdIso, updatedIso)
  }

  /** `createMut.onMutate`: the optimistic client in front of the cached
      list (or alone when nothing is cached); the snapshot is the cache as
      it was. */
  function CreateOnMutate(cache: Cache, input: CreateInput, now: nat, createdIso: string, updatedIso: string): (m: Mutated)
    ensures m.prev == cache && m.cache.Some?
    ensures |m.cache.value| == |cache.GetOr([])| + 1
    ensures m.cache.value[0] == OptimisticClient(input, now, createdIso, updatedIso)
    ensures m.cache.value[1..] == cache.GetOr([])
  {
    Mutated(Some([OptimisticClient(input, now, createdIso, updatedIso)] + cache.GetOr([])), cache)
  }

  /** `{...c, ...input, updated_at}`: present fields overwrite, the id,
      the owner and the creation time stay. */
  function Merge(c: Client, input: UpdateInput, iso: string): (r: Client)
    ensures r.id == c.id && r.userId == c.userId && r.createdAt == c.createdAt && r.updatedAt == iso
    ensures r.name == (if input.name.Some? then input.name.value else c.name)
    ensures r.email == (if input.email.Some? then input.email.value else c.email)
    ensures r.phone == (if input.phone.Put? then input.phone.value else c.phone)
    ensures r.notes == (if input.notes.Put? then input.notes.value else c.notes)
  {
    Client(c.id, c.userId, input.name.GetOr(c.name), input.email.GetOr(c.email),
           if input.phone.Put? then input.phone.value else c.phone,
           if input.notes.Put? then input.notes.value else c.notes,
           c.createdAt, iso)
  }

  /** `prev.data.map(c => c.id === id ? merged : c)`: the clock is read
      afresh for each matching entry, so the entry at position `i` gets
      the time `isoAt(i)`. */
  function UpdateList(data: seq<Client>, id: string, input: UpdateInput, isoAt: nat -> string): (r: seq<Client>)
    ensures |r| == |data|
    ensures forall i :: 0 <= i < |data| && data[i].id == id ==> r[i] == Merge(data[i], input, isoAt(i))
    ensures forall i :: 0 <= i < |data| && data[i].id != id ==> r[i] == data[i]
  {
    seq(|data|, i requires 0 <= i < |data| => if data[i].id == id then Merge(data[i], input, isoAt(i)) else data[i])
  }

  /** `updateMut.onMutate`: the matching entries are merged when a list is
      cached; nothing is cached otherwise. */
  function UpdateOnMutate(cache: Cache, id: string, input: UpdateInput, isoAt: nat -> string): (m: Mutated)
    ensures m.prev == cache
    ensures cache.None? ==> m.cache == None
    ensures cache.Some? ==> m.cache == Some(UpdateList(cache.value, id, input, isoAt))
  {
    match cache
    case None => Mutated(None, None)
    case Some(data) => Mutated(Some(UpdateList(data, id, input, isoAt)), cache)
  }

  /** The same update applied twice gives what the second application
      gives alone, whatever the clock read the first time, and the ids in
      the list never change. */
  lemma UpdateIdempotent(data: seq<Client>, id: string, input: UpdateInput, firstAt: nat -> string, secondAt: nat -> string)
    ensures UpdateList(UpdateList(data, id, input, firstAt), id, input, secondAt) == UpdateList(data, id, input, secondAt)
    ensures forall i :: 0 <= i < |data| ==> UpdateList(data, id, input, firstAt)[i].id == data[i].id
  {
  }

  /** `prev.data.filter(c => c.id !== id)` */
  function DeleteList(data: seq<Client>, id: string): (r: seq<Client>)
    ensures |r| <= |data|
  {
    if |data| == 0 then []
    else (if data[0].id != id then [data[0]] else []) + DeleteList(data[1..], id)
  }

  /** Exactly the entries with another id remain. */
  lemma {:induction false} DeleteMembers(data: seq<Client>, id: string)
    ensures forall c :: c in DeleteList(data, id) ==> c in data && c.id != id
    ensures forall i :: 0 <= i < |data| && data[i].id != id ==> data[i] in DeleteList(data, id)
  {
    if |data| > 0 {
      DeleteMembers(data[1..], id);
      assert forall i :: 1 <= i < |data| ==> data[1..][i - 1] == data[i];
      assert forall c :: c in data[1..] ==> c in data;
    }
  }

  /** The filter keeps the order: it works part by part. */
  lemma {:induction false} DeleteAppend(a: seq<Client>, b: seq<Client>, id: string)
    ensures DeleteList(a + b, id) == DeleteList(a, id) + DeleteList(b, id)
  {
    if |a| == 0 {
      assert a + b == b;
    } else {
      var head := if a[0].id != id then [a[0]] else [];
      assert (a + b)[0] == a[0];
      assert (a + b)[1..] == a[1..] + b;
      assert DeleteList(a + b, id) == head + DeleteList(a[1..] + b, id);
      DeleteAppend(a[1..], b, id);
      assert DeleteList(a, id) == head + DeleteList(a[1..], id);
    }
  }

  /** Deleting an id no entry has changes nothing. */
  lemma {:induction false} DeleteAbsent(data: seq<Client>, id: string)
    requires forall i :: 0 <= i < |data| ==> data[i].id != id
    ensures DeleteList(data, id) == data
  {
    if |data| > 0 {
      assert forall i :: 0 <= i < |data[1..]| ==> data[1..][i] == data[i + 1];
      DeleteAbsent(data[1..], id);
      assert data == [data[0]] + data[1..];
    }
  }

  /** Deleting twice is deleting once. */
  lemma DeleteTwice(data: seq<Client>, id: string)
    ensures DeleteList(DeleteList(data, id), id) == DeleteList(data, id)
  {
    var r := DeleteList(data, id);
    DeleteMembers(data, id);
    assert forall i :: 0 <= i < |r| ==> r[i] in r;
    DeleteAbsent(r, id);
  }

  /** `deleteMut.onMutate`: the entries with that id leave a cached list;
      nothing is cached otherwise. */
  function DeleteOnMutate(cache: Cache, id: string): (m: Mutated)
    ensures m.prev == cache
    ensures cache.None? ==> m.cache == None
    ensures cache.Some? ==> m.cache == Some(DeleteList(cache.value, id))
  {
    match cache
    case None => Mutated(None, None)
    case Some(data) => Mutated(Some(DeleteList(data, id)), cache)
  }

  /** Deleting the entry just created optimistically leaves the list as it
      was, when no cached entry shares its id. */
  lemma DeleteUndoesCreate(data: seq<Client>, input: CreateInput, now: nat, createdIso: string, updatedIso: string)
    requires forall i :: 0 <= i < |data| ==> data[i].id != OptimisticId(now)
    ensures DeleteOnMutate(CreateOnMutate(Some(data), input, now, createdIso, updatedIso).cache, OptimisticId(now)).cache == Some(data)
  {
    var c := OptimisticClient(input, now, createdIso, updatedIso);
    DeleteAppend([c], data, OptimisticId(now));
    DeleteAbsent(data, OptimisticId(now));
    assert [c][1..] == [];
    assert DeleteList([c], OptimisticId(now)) == [];
    assert [c] + data == CreateOnMutate(Some(data), input, now, createdIso, updatedIso).cache.value;
    assert [] + data == data;
  }

  /** `onError`: put the snapshot back when there was one. */
  function Rollback(current: Cache, prev: Cache): (r: Cache)
    ensures prev.Some? ==> r == prev
    ensures prev.None? ==> r == current
  {
    if prev.Some? then prev else current
  }

  /** A failed update or delete leaves the cache as it was before the
      mutation, whether or not a list was cached. */
  lemma FailedEditRestores(cache: Cache, id: string, input: UpdateInput, isoAt: nat -> string)
    ensures var m := UpdateOnMutate(cache, id, input, isoAt); Rollback(m.cache, m.prev) == cache
    ensures var m := DeleteOnMutate(cache, id); Rollback(m.cache, m.prev) == cache
  {
  }

  /** A failed create restores a cached list; with nothing cached, the
      optimistic entry stays until the list is fetched again. */
  lemma FailedCreate(cache: Cache, input: CreateInput, now: nat, createdIso: string, updatedIso: string)
    ensures var m := CreateOnMutate(cache, input, now, createdIso, updatedIso);
      && (cache.Some? ==> Rollback(m.cache, m.prev) == cache)
      && (cache.None? ==> Rollback(m.cache, m.prev) == Some([OptimisticClient(input, now, createdIso, updatedIso)]))
  {
    var c := OptimisticClient(input, now, createdIso, updatedIso);
    assert [c] + [] == [c];
  }

  /** What a form submission does: show the first schema message, or
      issue the mutation with the parsed input. */
  datatype Submitted<T> = ShowError(message: string) | Mutate(input: T)

  const NameRequired := "Name is required"
  const InvalidEmail := "Invalid email"

  /** `onCreate`: the schema checks the name before the email, so a
      missing name is reported first. */
  function OnCreate(form: CreateInput, isEmail: string -> bool): (s: Submitted<CreateInput>)
    ensures s.Mutate? <==> form.name != "" && isEmail(form.email)
    ensures s.Mutate? ==> s.input == form
    ensures form.name == "" ==> s == ShowError(NameRequired)
    ensures form.name != "" && !isEmail(form.email) ==> s == ShowError(InvalidEmail)
  {
    if |form.name| < 1 then ShowError(NameRequired)
    else if !isEmail(form.email) then ShowError(InvalidEmail)
    else Mutate(form)
  }

  /** An edit to issue: the client's id and the parsed fields. */
  datatype Edit = Edit(id: string, input: UpdateInput)

  /** `onSaveEdit`: the partial schema checks only the fields present. */
  function OnSaveEdit(id: string, form: UpdateInput, isEmail: string -> bool): (s: Submitted<Edit>)
    ensures s.Mutate? <==> (form.name.Some? ==> form.name.value != "") && (form.email.Some? ==> isEmail(form.email.value))
    ensures s.Mutate? ==> s.input == Edit(id, form)
    ensures form.name == Some("") ==> s == ShowError(NameRequired)
    ensures form.name != Some("") && form.email.Some? && !isEmail(form.email.value) ==> s == ShowError(InvalidEmail)
  {
    if form.name.Some? && |form.name.value| < 1 then ShowError(NameRequired)
    else if form.email.Some? && !isEmail(form.email.value) then ShowError(InvalidEmail)
    else Mutate(Edit(id, form))
  }

  /** `onStartEdit`: edit this client, with every field copied. */
  function OnStartEdit(c: Client): (r: (string, UpdateInput))
    ensures r.0 == c.id
    ensures r.1.name == Some(c.name) && r.1.email == Some(c.email)
    ensures r.1.phone == Put(c.phone) && r.1.notes == Put(c.notes)
  {
    (c.id, UpdateInput(Some(c.name), Some(c.email), Put(c.phone), Put(c.notes)))
  }

  /** Saving an edit that was started and not changed passes the checks
      whenever the client would, and changes nothing but the update
      time. */
  lemma UnchangedEditKeepsClient(c: Client, isEmail: string -> bool, iso: string)
    ensures var (id, form) := OnStartEdit(c);
      && (OnSaveEdit(id, form, isEmail).Mutate? <==> OnCreate(CreateInput(c.name, c.email, c.phone, c.notes), isEmail).Mutate?)
      && Merge(c, form, iso) == c.(updatedAt := iso)
  {
  }

  /** An edit of the optimistic entry started at once copies back exactly
      what was entered. */
  lemma StartEditOfCreated(input: CreateInput, now: nat, createdIso: string, updatedIso: string)
    ensures OnStartEdit(OptimisticClient(input, now, createdIso, updatedIso)).1 == UpdateInput(Some(input.name), Some(input.email), Put(input.phone), Put(input.notes))
  {
  }
}
