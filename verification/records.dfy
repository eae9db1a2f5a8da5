/**
 * The credential record collection of `backend/models/Password.js` and the record
 * routes of `backend/routes/passwords.js`. The collection is a sequence of records in
 * natural (insertion) order with distinct ids; every mutation is filtered by the pair
 * (id, owner). Each route is a function from the store and the request to the new
 * store and the HTTP reply; the clock, the fresh ObjectId and the 12 random IV bytes
 * are parameters.
 */
module Records {
  import opened Wrappers
  import opened Bytes
  import Text
  import Crypto
  import Sorting
  import Base64

  type Id = string

  /** A `PasswordSchema` document (`timestamps: true` adds the two dates). */
  datatype Record = Record(
    id: Id,
    user: Id,
    website: string,
    username: string,
    passwordEncrypted: string,
    nonce: string,
    pinned: bool,
    createdAt: int,
    updatedAt: int)

  /** Mongoose's `required: true` refuses a missing value and, for strings, the empty one. */
  predicate Required(r: Record) {
    |r.user| > 0 && |r.website| > 0 && |r.username| > 0 && |r.passwordEncrypted| > 0 && |r.nonce| > 0
  }

  datatype Store = Store(records: seq<Record>)

  predicate DistinctIds(rs: seq<Record>) {
    forall i, j :: 0 <= i < j < |rs| ==> rs[i].id != rs[j].id
  }

  predicate Valid(st: Store) {
    DistinctIds(st.records) && forall i :: 0 <= i < |st.records| ==> Required(st.records[i])
  }

  predicate HasId(st: Store, id: Id) {
    exists i :: 0 <= i < |st.records| && st.records[i].id == id
  }

  /** The collaborators of the routes: the cipher, UTF-8, and `process.env.MASTER_KEY`. */
  datatype Env = Env(aead: Crypto.Aead, utf8: Crypto.Utf8, masterKey: string)

  /** The three request fields; `None` is a field absent from the JSON body. */
  datatype Form = Form(website: Option<string>, username: Option<string>, password: Option<string>)

  predicate Complete(f: Form) {
    Text.Truthy(f.website) && Text.Truthy(f.username) && Text.Truthy(f.password)
  }

  /** One element of the GET listing. */
  datatype Entry = Entry(id: Id, website: string, username: string, password: string, pinned: bool, updatedAt: int)

  datatype Body =
    | Message(text: string)
    | Listing(entries: seq<Entry>)
    | Created(id: Id, pinned: bool)
    | PinState(pinned: bool)
    | Done

  datatype Reply = Reply(status: int, body: Body)

  datatype Step = Step(store: Store, reply: Reply)

  const MissingFields := Reply(400, Message("Missing fields"))
  const ServerError := Reply(500, Message("Server error"))
  const PasswordNotFound := Reply(404, Message("Password not found"))
  const NotFoundOrNotAuthorized := Reply(404, Message("Not found or not authorized"))

  predicate Matches(r: Record, id: Id, owner: Id) {
    r.id == id && r.user == owner
  }

  /** The position of the record matched by `{ _id: id, user: owner }`, if any. */
  function Find(rs: seq<Record>, id: Id, owner: Id): (k: Option<nat>)
    ensures k.Some? ==> k.value < |rs| && Matches(rs[k.value], id, owner)
    ensures k.Some? ==> forall i :: 0 <= i < k.value ==> !Matches(rs[i], id, owner)
    ensures k.None? ==> forall i :: 0 <= i < |rs| ==> !Matches(rs[i], id, owner)
  {
    if |rs| == 0 then None
    else if Matches(rs[0], id, owner) then Some(0)
    else match Find(rs[1..], id, owner)
      case None => None
      case Some(k) => Some(k + 1)
  }

  /** With distinct ids, the match is the only record carrying `id`. */
  lemma FindUnique(rs: seq<Record>, id: Id, owner: Id)
    requires DistinctIds(rs)
    requires Find(rs, id, owner).Some?
    ensures forall i :: 0 <= i < |rs| && rs[i].id == id ==> i == Find(rs, id, owner).value
  {
  }

  function RemoveAt(rs: seq<Record>, k: nat): (r: seq<Record>)
    requires k < |rs|
    ensures |r| == |rs| - 1
    ensures forall i :: 0 <= i < k ==> r[i] == rs[i]
    ensures forall i :: k <= i < |r| ==> r[i] == rs[i + 1]
  {
    rs[..k] + rs[k + 1..]
  }

  /** `Password.create`: the new document with `pinned` at its schema default, false. */
  function NewRecord(id: Id, owner: Id, website: string, username: string, sealed: Crypto.Stored, now: int): Record {
    Record(id, owner, website, username, sealed.ciphertext, sealed.nonce, false, now, now)
  }

  /** POST `/`: validate, seal the password once, insert. */
  function Create(env: Env, st: Store, owner: Id, form: Form, freshId: Id, iv: seq<Byte>, now: int): (s: Step)
    requires |iv| == Crypto.IvLength
    ensures !Complete(form) ==> s == Step(st, MissingFields)
    ensures Complete(form) && Crypto.KeyFrom(env.masterKey).Failure? ==> s == Step(st, ServerError)
    ensures Complete(form) && Crypto.KeyFrom(env.masterKey).Success? ==>
      var sealed := Crypto.Encrypt(env.aead, env.utf8, form.password.value, env.masterKey, iv).value;
      && s.reply == Reply(201, Created(freshId, false))
      && s.store.records == st.records
           + [NewRecord(freshId, owner, form.website.value, form.username.value, sealed, now)]
  {
    if !Complete(form) then Step(st, MissingFields)
    else
      match Crypto.Encrypt(env.aead, env.utf8, form.password.value, env.masterKey, iv)
      case Failure(_) => Step(st, ServerError)
      case Success(sealed) =>
        var r := NewRecord(freshId, owner, form.website.value, form.username.value, sealed, now);
        Step(Store(st.records + [r]), Reply(201, Created(freshId, r.pinned)))
  }

  /** The `updateData` of PUT `/:id`: new fields and a fresh seal; `pinned` only when supplied. */
  function Revise(r: Record, form: Form, sealed: Crypto.Stored, pinned: Option<bool>, now: int): Record
    requires Complete(form)
  {
    r.(website := form.website.value, username := form.username.value,
       passwordEncrypted := sealed.ciphertext, nonce := sealed.nonce,
       pinned := if pinned.Some? then pinned.value else r.pinned,
       updatedAt := now)
  }

  /** PUT `/:id`: validate, seal, then `findOneAndUpdate({ _id, user }, updateData)`. */
  function Update(env: Env, st: Store, owner: Id, id: Id, form: Form, pinned: Option<bool>, iv: seq<Byte>, now: int)
    : (s: Step)
    requires |iv| == Crypto.IvLength
    ensures !Complete(form) ==> s == Step(st, MissingFields)
    ensures Complete(form) && Crypto.KeyFrom(env.masterKey).Failure? ==> s == Step(st, ServerError)
    ensures Complete(form) && Crypto.KeyFrom(env.masterKey).Success? && Find(st.records, id, owner).None? ==>
      s == Step(st, PasswordNotFound)
    ensures Complete(form) && Crypto.KeyFrom(env.masterKey).Success? && Find(st.records, id, owner).Some? ==>
      var k := Find(st.records, id, owner).value;
      var sealed := Crypto.Encrypt(env.aead, env.utf8, form.password.value, env.masterKey, iv).value;
      && s.reply == Reply(200, Message("Password updated successfully"))
      && |s.store.records| == |st.records|
      && s.store.records[k] == Revise(st.records[k], form, sealed, pinned, now)
      && forall i :: 0 <= i < |st.records| && i != k ==> s.store.records[i] == st.records[i]
  {
    if !Complete(form) then Step(st, MissingFields)
    else
      match Crypto.Encrypt(env.aead, env.utf8, form.password.value, env.masterKey, iv)
      case Failure(_) => Step(st, ServerError)
      case Success(sealed) =>
        match Find(st.records, id, owner)
        case None => Step(st, PasswordNotFound)
        case Some(k) =>
          var r := Revise(st.records[k], form, sealed, pinned, now);
          Step(Store(st.records[k := r]), Reply(200, Message("Password updated successfully")))
  }

  /** PUT `/:id/pin`: flip `pinned` of the owned record and answer its new value. */
  function TogglePin(st: Store, owner: Id, id: Id, now: int): (s: Step)
    ensures Find(st.records, id, owner).None? ==> s == Step(st, PasswordNotFound)
    ensures Find(st.records, id, owner).Some? ==>
      var k := Find(st.records, id, owner).value;
      && |s.store.records| == |st.records|
      && s.store.records[k].pinned == !st.records[k].pinned
      && s.store.records[k] == st.records[k].(pinned := !st.records[k].pinned, updatedAt := now)
      && s.reply == Reply(200, PinState(s.store.records[k].pinned))
      && forall i :: 0 <= i < |st.records| && i != k ==> s.store.records[i] == st.records[i]
  {
    match Find(st.records, id, owner)
    case None => Step(st, PasswordNotFound)
    case Some(k) =>
      var r := st.records[k].(pinned := !st.records[k].pinned, updatedAt := now);
      Step(Store(st.records[k := r]), Reply(200, PinState(r.pinned)))
  }

  /** `PasswordSchema.statics.deleteByUserAndId`: `findOneAndDelete({ _id, user })`. */
  function DeleteByUserAndId(st: Store, owner: Id, id: Id): (res: (Store, Option<Record>))
    ensures Find(st.records, id, owner).None? ==> res == (st, None)
    ensures Find(st.records, id, owner).Some? ==>
      var k := Find(st.records, id, owner).value;
      res == (Store(RemoveAt(st.records, k)), Some(st.records[k]))
  {
    match Find(st.records, id, owner)
    case None => (st, None)
    case Some(k) => (Store(RemoveAt(st.records, k)), Some(st.records[k]))
  }

  /** DELETE `/:id`: `deleteOne({ _id, user })`, 404 when `deletedCount` is 0. */
  function Delete(st: Store, owner: Id, id: Id): (s: Step)
    ensures Find(st.records, id, owner).None? <==> s.reply == NotFoundOrNotAuthorized
    ensures Find(st.records, id, owner).None? ==> s.store == st
    ensures Find(st.records, id, owner).Some? ==>
      && s.reply == Reply(200, Done)
      && s.store == Store(RemoveAt(st.records, Find(st.records, id, owner).value))
  {
    var (rest, gone) := DeleteByUserAndId(st, owner, id);
    if gone.None? then Step(st, NotFoundOrNotAuthorized) else Step(rest, Reply(200, Done))
  }

  /** Removing the only record with a given id leaves no record with that id. */
  lemma DeleteRemovesId(st: Store, owner: Id, id: Id)
    requires Valid(st)
    requires Find(st.records, id, owner).Some?
    ensures !HasId(Delete(st, owner, id).store, id)
    ensures Valid(Delete(st, owner, id).store)
  {
    var k := Find(st.records, id, owner).value;
    FindUnique(st.records, id, owner);
    var rest := Delete(st, owner, id).store.records;
    assert rest == RemoveAt(st.records, k);
    forall i | 0 <= i < |rest|
      ensures rest[i].id != id
    {
      if i < k {
        assert rest[i] == st.records[i];
      } else {
        assert rest[i] == st.records[i + 1];
      }
    }
  }

  /** A second DELETE of the same id reports not-found and changes nothing. */
  lemma SecondDeleteNotFound(st: Store, owner: Id, id: Id)
    requires Valid(st)
    ensures var once := Delete(st, owner, id);
      Delete(once.store, owner, id) == Step(once.store, NotFoundOrNotAuthorized)
  {
    if Find(st.records, id, owner).Some? {
      DeleteRemovesId(st, owner, id);
    }
  }

  /** Every route leaves a record whose owner is not the caller exactly as it was. */
  lemma OwnershipIsolation(env: Env, st: Store, owner: Id, id: Id, form: Form, pinned: Option<bool>,
                           iv: seq<Byte>, now: int, victim: Record)
    requires |iv| == Crypto.IvLength
    requires victim in st.records && victim.user != owner
    ensures victim in Update(env, st, owner, id, form, pinned, iv, now).store.records
    ensures victim in TogglePin(st, owner, id, now).store.records
    ensures victim in Delete(st, owner, id).store.records
  {
    var i :| 0 <= i < |st.records| && st.records[i] == victim;
    var found := Find(st.records, id, owner);
    if found.Some? {
      var k := found.value;
      assert k != i;
      assert TogglePin(st, owner, id, now).store.records[i] == victim;
      if Complete(form) && Crypto.KeyFrom(env.masterKey).Success? {
        assert Update(env, st, owner, id, form, pinned, iv, now).store.records[i] == victim;
      }
      var rest := Delete(st, owner, id).store.records;
      if i < k {
        assert rest[i] == victim;
      } else {
        assert rest[i - 1] == victim;
      }
    }
  }

  /** The listing order `{ pinned: -1, createdAt: -1 }`: pinned first, then newest first. */
  predicate ListedBefore(a: Record, b: Record) {
    (a.pinned && !b.pinned) || (a.pinned == b.pinned && a.createdAt >= b.createdAt)
  }

  lemma ListedBeforeIsTotalPreorder()
    ensures Sorting.TotalPreorder(ListedBefore)
  {
  }

  /** `Password.find({ user: owner })`, in natural order. */
  function OwnedBy(rs: seq<Record>, owner: Id): (r: seq<Record>)
    ensures forall x :: x in r <==> x in rs && x.user == owner
    ensures |r| <= |rs|
  {
    if |rs| == 0 then []
    else if rs[0].user == owner then [rs[0]] + OwnedBy(rs[1..], owner)
    else OwnedBy(rs[1..], owner)
  }

  function Open(env: Env, r: Record): Result<string, Crypto.CryptoError> {
    Crypto.Decrypt(env.aead, env.utf8, r.passwordEncrypted, r.nonce, env.masterKey)
  }

  /** `docs.map(...)`: one entry per record; a failing `decrypt` aborts the whole map. */
  function Entries(env: Env, rs: seq<Record>): (r: Option<seq<Entry>>)
    ensures r.Some? <==> forall i :: 0 <= i < |rs| ==> Open(env, rs[i]).Success?
    ensures r.Some? ==> |r.value| == |rs| && forall i :: 0 <= i < |rs| ==>
      r.value[i] == Entry(rs[i].id, rs[i].website, rs[i].username, Open(env, rs[i]).value,
                          rs[i].pinned, rs[i].updatedAt)
  {
    if |rs| == 0 then Some([])
    else
      match Open(env, rs[0])
      case Failure(_) => None
      case Success(p) =>
        match Entries(env, rs[1..])
        case None => None
        case Some(rest) =>
          Some([Entry(rs[0].id, rs[0].website, rs[0].username, p, rs[0].pinned, rs[0].updatedAt)] + rest)
  }

  /** The owner's records in listing order. */
  function Listed(st: Store, owner: Id): (r: seq<Record>)
    ensures multiset(r) == multiset(OwnedBy(st.records, owner))
    ensures Sorting.SortedBy(ListedBefore, r)
    ensures forall x :: x in r ==> x.user == owner
  {
    ListedBeforeIsTotalPreorder();
    var r := Sorting.Sort(OwnedBy(st.records, owner), ListedBefore);
    assert forall x :: x in r ==> x in multiset(r);
    r
  }

  /** GET `/`: the caller's records, pinned first then newest first, each decrypted. */
  function List(env: Env, st: Store, owner: Id): (s: Step)
    ensures s.store == st
    ensures s.reply.status == 200 <==> forall x :: x in Listed(st, owner) ==> Open(env, x).Success?
    ensures s.reply.status != 200 ==> s.reply == ServerError
    ensures s.reply.status == 200 ==> s.reply.body.Listing?
    ensures s.reply.status == 200 ==>
      var rs := Listed(st, owner);
      var es := s.reply.body.entries;
      && |es| == |rs|
      && forall i :: 0 <= i < |rs| ==>
           es[i] == Entry(rs[i].id, rs[i].website, rs[i].username, Open(env, rs[i]).value,
                          rs[i].pinned, rs[i].updatedAt)
  {
    var rs := Listed(st, owner);
    match Entries(env, rs)
    case None => Step(st, ServerError)
    case Some(es) => Step(st, Reply(200, Listing(es)))
  }

  /** A created record keeps the invariant when its id is fresh and the caller is signed in. */
  lemma CreatePreservesValid(env: Env, st: Store, owner: Id, form: Form, freshId: Id, iv: seq<Byte>, now: int)
    requires Crypto.Sound(env.aead)
    requires Valid(st) && !HasId(st, freshId) && |owner| > 0
    requires |iv| == Crypto.IvLength
    ensures Valid(Create(env, st, owner, form, freshId, iv, now).store)
  {
    if Complete(form) && Crypto.KeyFrom(env.masterKey).Success? {
      var key := Crypto.KeyFrom(env.masterKey).value;
      var sealed := Crypto.Encrypt(env.aead, env.utf8, form.password.value, env.masterKey, iv).value;
      var s := env.aead.seal(key, iv, env.utf8.encode(form.password.value));
      assert |s.tag| == Crypto.TagLength;
      assert Base64.Decode(sealed.ciphertext) == Some(s.body + s.tag);
      assert Base64.Decode(sealed.nonce) == Some(iv);
      assert |sealed.ciphertext| > 0 && |sealed.nonce| > 0;
      var r := NewRecord(freshId, owner, form.website.value, form.username.value, sealed, now);
      assert Required(r);
    }
  }

  /** An update re-seals and rewrites only validated fields, so the store stays valid. */
  lemma UpdatePreservesValid(env: Env, st: Store, owner: Id, id: Id, form: Form, pinned: Option<bool>,
                             iv: seq<Byte>, now: int)
    requires Crypto.Sound(env.aead)
    requires Valid(st)
    requires |iv| == Crypto.IvLength
    ensures Valid(Update(env, st, owner, id, form, pinned, iv, now).store)
  {
    var found := Find(st.records, id, owner);
    if Complete(form) && Crypto.KeyFrom(env.masterKey).Success? && found.Some? {
      var k := found.value;
      var key := Crypto.KeyFrom(env.masterKey).value;
      var sealed := Crypto.Encrypt(env.aead, env.utf8, form.password.value, env.masterKey, iv).value;
      var s := env.aead.seal(key, iv, env.utf8.encode(form.password.value));
      assert |s.tag| == Crypto.TagLength;
      assert Base64.Decode(sealed.ciphertext) == Some(s.body + s.tag);
      assert Base64.Decode(sealed.nonce) == Some(iv);
      assert |sealed.ciphertext| > 0 && |sealed.nonce| > 0;
      var rs := Update(env, st, owner, id, form, pinned, iv, now).store.records;
      assert Required(rs[k]);
      assert forall i :: 0 <= i < |rs| ==> rs[i].id == st.records[i].id;
    }
  }

  /** A pin toggle changes only `pinned` and the update time, so the store stays valid. */
  lemma TogglePinPreservesValid(st: Store, owner: Id, id: Id, now: int)
    requires Valid(st)
    ensures Valid(TogglePin(st, owner, id, now).store)
  {
    var found := Find(st.records, id, owner);
    if found.Some? {
      var rs := TogglePin(st, owner, id, now).store.records;
      assert forall i :: 0 <= i < |rs| ==> rs[i].id == st.records[i].id;
      assert forall i :: 0 <= i < |rs| ==> Required(rs[i]) == Required(st.records[i]);
    }
  }

  /** No two stored records share a nonce: no IV is ever reused under the master key. */
  predicate NoncesDistinct(rs: seq<Record>) {
    forall i, j :: 0 <= i < j < |rs| ==> rs[i].nonce != rs[j].nonce
  }

  /** The IV drawn for a request is fresh when no stored nonce decodes to it. */
  predicate FreshIv(st: Store, iv: seq<Byte>) {
    forall i :: 0 <= i < |st.records| ==> Base64.Decode(st.records[i].nonce) != Some(iv)
  }

  /**
   * Create and update write the ciphertext and the nonce of one `encrypt` call together,
   * so a fresh IV per call keeps every stored nonce distinct.
   */
  lemma FreshIvKeepsNoncesDistinct(env: Env, st: Store, owner: Id, id: Id, form: Form, pinned: Option<bool>,
                                   freshId: Id, iv: seq<Byte>, now: int)
    requires |iv| == Crypto.IvLength
    requires NoncesDistinct(st.records) && FreshIv(st, iv)
    ensures NoncesDistinct(Create(env, st, owner, form, freshId, iv, now).store.records)
    ensures NoncesDistinct(Update(env, st, owner, id, form, pinned, iv, now).store.records)
  {
    if Complete(form) && Crypto.KeyFrom(env.masterKey).Success? {
      var sealed := Crypto.Encrypt(env.aead, env.utf8, form.password.value, env.masterKey, iv).value;
      assert Base64.Decode(sealed.nonce) == Some(iv);
      forall i | 0 <= i < |st.records|
        ensures st.records[i].nonce != sealed.nonce
      {
        assert Base64.Decode(st.records[i].nonce) != Some(iv);
      }
      var created := Create(env, st, owner, form, freshId, iv, now).store.records;
      assert created[|st.records|].nonce == sealed.nonce;
      forall i, j | 0 <= i < j < |created|
        ensures created[i].nonce != created[j].nonce
      {
        if j < |st.records| {
          assert created[i] == st.records[i] && created[j] == st.records[j];
        } else {
          assert created[i] == st.records[i];
        }
      }
      var found := Find(st.records, id, owner);
      if found.Some? {
        var k := found.value;
        var updated := Update(env, st, owner, id, form, pinned, iv, now).store.records;
        assert updated[k].nonce == sealed.nonce;
        forall i, j | 0 <= i < j < |updated|
          ensures updated[i].nonce != updated[j].nonce
        {
          if i != k && j != k {
            assert updated[i] == st.records[i] && updated[j] == st.records[j];
          } else if i == k {
            assert updated[j] == st.records[j];
          } else {
            assert updated[i] == st.records[i];
          }
        }
      }
    }
  }

  /** After a successful update the stored seal opens to the new password. */
  lemma UpdateReseals(env: Env, st: Store, owner: Id, id: Id, form: Form, pinned: Option<bool>, iv: seq<Byte>, now: int)
    requires Crypto.Sound(env.aead) && Crypto.Faithful(env.utf8)
    requires |iv| == Crypto.IvLength
    requires Complete(form) && Crypto.KeyFrom(env.masterKey).Success?
    requires Find(st.records, id, owner).Some?
    ensures var k := Find(st.records, id, owner).value;
      var r := Update(env, st, owner, id, form, pinned, iv, now).store.records[k];
      && Open(env, r) == Success(form.password.value)
      && r.pinned == (if pinned.Some? then pinned.value else st.records[k].pinned)
      && r.id == id && r.user == owner
  {
    Crypto.RoundTrip(env.aead, env.utf8, form.password.value, env.masterKey, iv);
  }

  /** A credential created for an owner who had none is listed back alone, decrypted and unpinned. */
  lemma CreateThenList(env: Env, st: Store, owner: Id, form: Form, freshId: Id, iv: seq<Byte>, t0: int)
    requires Crypto.Sound(env.aead) && Crypto.Faithful(env.utf8)
    requires |iv| == Crypto.IvLength
    requires Complete(form) && Crypto.KeyFrom(env.masterKey).Success?
    requires OwnedBy(st.records, owner) == []
    ensures var created := Create(env, st, owner, form, freshId, iv, t0).store;
      var listed := List(env, created, owner).reply;
      && listed.status == 200
      && |listed.body.entries| == 1
      && listed.body.entries[0].password == form.password.value
      && !listed.body.entries[0].pinned
  {
    var created := Create(env, st, owner, form, freshId, iv, t0).store;
    var r := created.records[|st.records|];
    Crypto.RoundTrip(env.aead, env.utf8, form.password.value, env.masterKey, iv);
    assert Open(env, r) == Success(form.password.value);
    OwnedByAppend(st.records, r, owner);
    assert OwnedBy(created.records, owner) == [r];
    var rs := Listed(created, owner);
    assert multiset(rs) == multiset{r};
    assert |rs| == 1 && rs[0] in multiset(rs);
    assert rs == [r];
  }

  /** Toggling the pin of a freshly created credential twice turns it on, then off. */
  lemma CreateThenToggleTwice(env: Env, st: Store, owner: Id, form: Form, freshId: Id, iv: seq<Byte>, t0: int, t1: int, t2: int)
    requires |iv| == Crypto.IvLength
    requires Complete(form) && Crypto.KeyFrom(env.masterKey).Success?
    requires OwnedBy(st.records, owner) == []
    ensures var created := Create(env, st, owner, form, freshId, iv, t0).store;
      var once := TogglePin(created, owner, freshId, t1);
      var twice := TogglePin(once.store, owner, freshId, t2);
      once.reply == Reply(200, PinState(true)) && twice.reply == Reply(200, PinState(false))
  {
    var created := Create(env, st, owner, form, freshId, iv, t0).store;
    var r := created.records[|st.records|];
    assert created.records == st.records + [r];
    FindLast(st.records, r, owner);
    var once := TogglePin(created, owner, freshId, t1);
    assert once.store.records[|st.records|].pinned;
    FindLast(st.records, once.store.records[|st.records|], owner);
    assert once.store.records == st.records + [once.store.records[|st.records|]];
  }

  lemma {:induction false} OwnedByAppend(rs: seq<Record>, r: Record, owner: Id)
    requires r.user == owner
    ensures OwnedBy(rs + [r], owner) == OwnedBy(rs, owner) + [r]
  {
    if |rs| > 0 {
      assert (rs + [r])[1..] == rs[1..] + [r];
      OwnedByAppend(rs[1..], r, owner);
    }
  }

  /** An owner with no records in `rs` is matched only by a record appended after them. */
  lemma FindLast(rs: seq<Record>, r: Record, owner: Id)
    requires OwnedBy(rs, owner) == [] && r.user == owner
    ensures Find(rs + [r], r.id, owner) == Some(|rs|)
  {
    var k := Find(rs + [r], r.id, owner);
    forall i | 0 <= i < |rs|
      ensures !Matches((rs + [r])[i], r.id, owner)
    {
      assert rs[i] !in OwnedBy(rs, owner);
    }
    assert Matches((rs + [r])[|rs|], r.id, owner);
  }
}
