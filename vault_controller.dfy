/**
 * The handlers of backend/controllers/vaultController.js over the VaultSecret
 * collection. The caller is the authenticated user id the auth middleware
 * attaches to the request; `now` is the clock Mongoose stamps timestamps with,
 * and `random` the bytes `crypto.randomBytes` returns.
 */
module VaultController {
  import opened Wrappers
  import opened Hex
  import opened Encryption
  import opened VaultSecretModel
  import opened Replies

  const MIN_GENERATED_LENGTH: int := 12
  const MAX_GENERATED_LENGTH: int := 64

  const MISSING_FIELDS: string := "Title and password are required"
  const NOT_FOUND: string := "Secret not found"
  const DELETED: string := "Secret deleted successfully"

  /** The JSON fields a create or update request may carry; None where a key is absent. */
  datatype SecretBody = SecretBody(
    title: Option<string>,
    password: Option<string>,
    category: Option<string>,
    tags: Option<seq<string>>,
    websiteUrl: Option<string>,
    username: Option<string>,
    notes: Option<string>)

  /** `field || fallback`. */
  function OrElse(o: Option<string>, fallback: string): (r: string)
    ensures Truthy(o) ==> r == o.value
    ensures !Truthy(o) ==> r == fallback
  {
    if Truthy(o) then o.value else fallback
  }

  /** `field !== undefined ? field : fallback`. */
  function IfPresent<T>(o: Option<T>, fallback: T): (r: T)
    ensures o.Some? ==> r == o.value
    ensures o.None? ==> r == fallback
  {
    if o.Some? then o.value else fallback
  }

  /** The create reply: no password, no ciphertext, no IV. */
  datatype Created = Created(id: SecretId, title: string, category: string, tags: seq<string>,
                             websiteUrl: string, username: string, createdAt: int)

  /** A listed record: `select('-encryptedPassword -iv')`. */
  datatype Listed = Listed(id: SecretId, user: UserId, title: string, category: string, tags: seq<string>,
                           websiteUrl: string, username: string, notes: string, createdAt: int, updatedAt: int)

  /** The single-record reply, with the decrypted password. */
  datatype Revealed = Revealed(id: SecretId, title: string, password: string, category: string, tags: seq<string>,
                               websiteUrl: string, username: string, notes: string, createdAt: int, updatedAt: int)

  /** The update reply: no password, no ciphertext, no IV. */
  datatype Updated = Updated(id: SecretId, title: string, category: string, tags: seq<string>,
                             websiteUrl: string, username: string, updatedAt: int)

  function CreatedView(r: VaultSecret): Created {
    Created(r.id, r.title, r.category, r.tags, r.websiteUrl, r.username, r.createdAt)
  }

  function ListedView(r: VaultSecret): Listed {
    Listed(r.id, r.user, r.title, r.category, r.tags, r.websiteUrl, r.username, r.notes, r.createdAt, r.updatedAt)
  }

  function RevealedView(r: VaultSecret, password: string): Revealed {
    Revealed(r.id, r.title, password, r.category, r.tags, r.websiteUrl, r.username, r.notes, r.createdAt, r.updatedAt)
  }

  function UpdatedView(r: VaultSecret): Updated {
    Updated(r.id, r.title, r.category, r.tags, r.websiteUrl, r.username, r.updatedAt)
  }

  function Listings(rs: seq<VaultSecret>): (ls: seq<Listed>)
    ensures |ls| == |rs| && forall i :: 0 <= i < |rs| ==> ls[i] == ListedView(rs[i])
  {
    if rs == [] then [] else [ListedView(rs[0])] + Listings(rs[1..])
  }

  predicate NewestFirst(ls: seq<Listed>) {
    forall i, j :: 0 <= i < j < |ls| ==> ls[i].createdAt >= ls[j].createdAt
  }

  /** Below the head of a newest-first listing, everything is at most as new as the head. */
  lemma NewestFirstTail(ls: seq<Listed>)
    requires NewestFirst(ls) && ls != []
    ensures NewestFirst(ls[1..])
    ensures forall y :: y in ls[1..] ==> y.createdAt <= ls[0].createdAt
  {
    forall y | y in ls[1..] ensures y.createdAt <= ls[0].createdAt {
      var m :| 0 <= m < |ls[1..]| && ls[1..][m] == y;
      assert ls[m + 1] == y;
    }
  }

  /** Places `x` before the first entry that is not newer than it. */
  function InsertByDate(x: Listed, ls: seq<Listed>): (r: seq<Listed>)
    ensures multiset(r) == multiset(ls) + multiset{x}
  {
    if ls == [] || x.createdAt >= ls[0].createdAt then [x] + ls
    else
      assert ls == [ls[0]] + ls[1..];
      [ls[0]] + InsertByDate(x, ls[1..])
  }

  /** Inserting into a newest-first listing keeps it newest first. */
  lemma {:induction false} InsertByDateKeepsOrder(x: Listed, ls: seq<Listed>)
    requires NewestFirst(ls)
    ensures NewestFirst(InsertByDate(x, ls))
  {
    if ls != [] && x.createdAt < ls[0].createdAt {
      NewestFirstTail(ls);
      InsertByDateKeepsOrder(x, ls[1..]);
      var rest := InsertByDate(x, ls[1..]);
      forall y | y in rest ensures y.createdAt <= ls[0].createdAt {
        assert y in multiset(rest);
      }
      var r := [ls[0]] + rest;
      assert forall j :: 0 < j < |r| ==> r[j] == rest[j - 1] && r[j] in rest;
    }
  }

  /**
   * `sort({ createdAt: -1 })`: newest first. Records with equal timestamps
   * keep their collection order, one of the orders the database may return.
   */
  function SortNewestFirst(ls: seq<Listed>): (r: seq<Listed>)
    ensures NewestFirst(r)
    ensures multiset(r) == multiset(ls)
  {
    if ls == [] then []
    else
      assert ls == [ls[0]] + ls[1..];
      InsertByDateKeepsOrder(ls[0], SortNewestFirst(ls[1..]));
      InsertByDate(ls[0], SortNewestFirst(ls[1..]))
  }

  /**
   * The record `createSecret` stores under `id` for `caller`: the password
   * encrypted under the IV `random`, the title trimmed, and the defaults Other,
   * `[]` and `''` for a falsy category, tags, websiteUrl, username and notes.
   */
  ghost predicate CreatedFrom(r: VaultSecret, id: SecretId, env: Environment, caller: UserId, body: SecretBody,
                              now: int, random: seq<byte>)
    requires Truthy(body.title) && Truthy(body.password)
  {
    && r.id == id && r.user == caller
    && r.iv == Hex.Encode(random)
    && Decrypt(env, r.encryptedPassword, r.iv) == Ok(body.password.value)
    && r.title == Trim(body.title.value)
    && r.category == OrElse(body.category, DEFAULT_CATEGORY)
    && r.tags == IfPresent(body.tags, [])
    && r.websiteUrl == Trim(OrElse(body.websiteUrl, ""))
    && r.username == Trim(OrElse(body.username, ""))
    && r.notes == OrElse(body.notes, "")
    && r.createdAt == now && r.updatedAt == now
  }

  /**
   * The request fields `createSecret` hands to `create` pass the schema's
   * validators: the trimmed title is non-empty and at most 100 characters,
   * the category (Other when falsy) is in the enum, the notes at most 500.
   */
  predicate CreateAccepted(body: SecretBody)
    requires Truthy(body.title)
  {
    && Trim(body.title.value) != "" && |Trim(body.title.value)| <= TITLE_MAX_LENGTH
    && OrElse(body.category, DEFAULT_CATEGORY) in CATEGORIES
    && |OrElse(body.notes, "")| <= NOTES_MAX_LENGTH
  }

  /**
   * The document `createSecret` hands to `create`: the sealed password, the
   * request's title as sent, and the defaults for a falsy category, tags,
   * websiteUrl, username and notes; both timestamps are `now`.
   */
  function CreateDraft(id: SecretId, caller: UserId, body: SecretBody, sealed: Sealed, now: int): VaultSecret
    requires Truthy(body.title)
  {
    VaultSecret(
      id := id,
      user := caller,
      title := body.title.value,
      encryptedPassword := sealed.encrypted,
      iv := sealed.iv,
      category := OrElse(body.category, DEFAULT_CATEGORY),
      tags := IfPresent(body.tags, []),
      websiteUrl := OrElse(body.websiteUrl, ""),
      username := OrElse(body.username, ""),
      notes := OrElse(body.notes, ""),
      createdAt := now,
      updatedAt := now)
  }

  /** Creating the defaulted draft succeeds exactly when the request's fields are accepted. */
  lemma DraftAccepted(body: SecretBody, draft: VaultSecret)
    requires Truthy(body.title)
    requires draft.title == body.title.value
    requires draft.category == OrElse(body.category, DEFAULT_CATEGORY)
    requires draft.notes == OrElse(body.notes, "")
    requires draft.encryptedPassword != "" && draft.iv != ""
    ensures Save(draft).Ok? <==> CreateAccepted(body)
  {
    SaveAccepts(draft);
  }

  /**
   * The body of `createSecret` after its field check: encrypts the password,
   * fills in the defaults and runs `create`'s validation. Fails with the
   * cipher's error or the validation message; neither follows a
   * `res.status` call, so both are sent with the default status 200.
   */
  method NewSecret(id: SecretId, env: Environment, caller: UserId, body: SecretBody, now: int, random: seq<byte>)
    returns (res: Result<VaultSecret, Reply<Created>>)
    requires Truthy(body.title) && Truthy(body.password) && |random| == IV_LENGTH
    ensures res.Ok? <==> KeyConfigured(env) && CreateAccepted(body)
    ensures res.Err? ==> res.error.ErrorReply? && res.error.status == EXPRESS_DEFAULT_STATUS
    ensures !KeyConfigured(env) ==> res == Err(ErrorReply(EXPRESS_DEFAULT_STATUS, ENCRYPT_FAILED))
    ensures KeyConfigured(env) && !CreateAccepted(body) ==>
              var draft := CreateDraft(id, caller, body, Encrypt(env, body.password.value, random).value, now);
              res == Err(ErrorReply(EXPRESS_DEFAULT_STATUS, ValidationMessage(Validate(Normalize(draft)))))
    ensures res.Ok? ==> VaultSecretModel.Valid(res.value) && CreatedFrom(res.value, id, env, caller, body, now, random)
  {
    var sealed := Encrypt(env, body.password.value, random);
    if sealed.Err? {
      return Err(ErrorReply(CatchStatusAsWritten(EXPRESS_DEFAULT_STATUS), sealed.error));
    }
    EncryptDecrypt(env, body.password.value, random);
    var draft := CreateDraft(id, caller, body, sealed.value, now);
    DraftAccepted(body, draft);
    var saved := Save(draft);
    if saved.Err? {
      return Err(ErrorReply(CatchStatusAsWritten(EXPRESS_DEFAULT_STATUS), ValidationMessage(saved.error)));
    }
    res := Ok(saved.value);
  }

  /**
   * `createSecret`: refuses a body without a truthy title and password,
   * otherwise appends the record `NewSecret` builds under a fresh id.
   */
  method CreateSecret(db: SecretCollection, env: Environment, caller: UserId, body: SecretBody,
                      now: int, random: seq<byte>) returns (reply: Reply<Created>)
    requires db.Valid() && |random| == IV_LENGTH
    modifies db
    ensures db.Valid()
    ensures !Truthy(body.title) || !Truthy(body.password) <==> reply == ErrorReply(400, MISSING_FIELDS)
    ensures Truthy(body.title) && Truthy(body.password) ==>
              (reply.Reply? <==> KeyConfigured(env) && CreateAccepted(body))
    ensures Truthy(body.title) && Truthy(body.password) && reply.ErrorReply? ==>
              reply.status == EXPRESS_DEFAULT_STATUS
    ensures Truthy(body.title) && Truthy(body.password) && !KeyConfigured(env) ==>
              reply == ErrorReply(EXPRESS_DEFAULT_STATUS, ENCRYPT_FAILED)
    ensures Truthy(body.title) && Truthy(body.password) && KeyConfigured(env) && !CreateAccepted(body) ==>
              var sealed := Encrypt(env, body.password.value, random).value;
              var draft := CreateDraft(old(db.nextId), caller, body, sealed, now);
              reply == ErrorReply(EXPRESS_DEFAULT_STATUS, ValidationMessage(Validate(Normalize(draft))))
    ensures reply.ErrorReply? ==> db.records == old(db.records) && db.nextId == old(db.nextId)
    ensures reply.Reply? ==>
      && Truthy(body.title) && Truthy(body.password)
      && reply.status == 201
      && |db.records| == |old(db.records)| + 1
      && db.records == old(db.records) + [db.records[|old(db.records)|]]
      && db.nextId == old(db.nextId) + 1
      && reply.body == CreatedView(db.records[|old(db.records)|])
      && CreatedFrom(db.records[|old(db.records)|], old(db.nextId), env, caller, body, now, random)
  {
    if !Truthy(body.title) || !Truthy(body.password) {
      return ErrorReply(CatchStatusAsWritten(400), MISSING_FIELDS);
    }
    var made := NewSecret(db.nextId, env, caller, body, now, random);
    if made.Err? {
      return made.error;
    }
    db.Insert(made.value);
    reply := Reply(201, CreatedView(made.value));
  }

  /**
   * The dashboard form offers the category 'Personal', which the schema's enum
   * does not hold. With everything else in order, such a create fails
   * validation after encryption, is answered with the default status 200
   * instead of an error status, and stores nothing.
   */
  method PersonalCategoryAnsweredAsSuccess(db: SecretCollection, env: Environment, caller: UserId, body: SecretBody,
                                           now: int, random: seq<byte>) returns (reply: Reply<Created>)
    requires db.Valid() && |random| == IV_LENGTH
    requires Truthy(body.title) && Truthy(body.password) && KeyConfigured(env)
    requires body.category == Some("Personal")
    modifies db
    ensures reply.ErrorReply? && reply.status == 200
    ensures db.records == old(db.records) && db.nextId == old(db.nextId)
  {
    PersonalIsNotACategory();
    assert OrElse(body.category, DEFAULT_CATEGORY) == "Personal";
    reply := CreateSecret(db, env, caller, body, now, random);
  }

  /** `getSecrets`: the caller's records without the password pair, newest first. */
  method GetSecrets(db: SecretCollection, caller: UserId) returns (reply: Reply<seq<Listed>>)
    ensures reply.Reply? && reply.status == 200
    ensures forall k :: 0 <= k < |reply.body| ==> reply.body[k].user == caller
    ensures multiset(reply.body) == multiset(Listings(OwnedBy(db.records, caller)))
    ensures NewestFirst(reply.body)
  {
    var owned := Listings(OwnedBy(db.records, caller));
    var sorted := SortNewestFirst(owned);
    forall k | 0 <= k < |sorted| ensures sorted[k].user == caller {
      assert sorted[k] in multiset(owned);
    }
    reply := Reply(200, sorted);
  }

  /**
   * `getSecretById`: the caller's record with this id, its password decrypted;
   * 404 when the caller owns no such record, and the decipher's error, with
   * the default status 200, when the stored pair does not decrypt.
   */
  method GetSecretById(db: SecretCollection, env: Environment, caller: UserId, id: SecretId)
    returns (reply: Reply<Revealed>)
    ensures FindOwned(db.records, id, caller).None? <==> reply == ErrorReply(404, NOT_FOUND)
    ensures reply.Reply? ==>
      && reply.status == 200
      && exists i :: 0 <= i < |db.records| && db.records[i].id == id && db.records[i].user == caller
           && Decrypt(env, db.records[i].encryptedPassword, db.records[i].iv) == Ok(reply.body.password)
           && reply.body == RevealedView(db.records[i], reply.body.password)
    ensures FindOwned(db.records, id, caller).Some? ==>
      var r := db.records[FindOwned(db.records, id, caller).value];
      && (Decrypt(env, r.encryptedPassword, r.iv).Ok? ==>
            reply == Reply(200, RevealedView(r, Decrypt(env, r.encryptedPassword, r.iv).value)))
      && (Decrypt(env, r.encryptedPassword, r.iv).Err? <==>
            reply == ErrorReply(EXPRESS_DEFAULT_STATUS, DECRYPT_FAILED))
  {
    var found := FindOwned(db.records, id, caller);
    if found.None? {
      return ErrorReply(CatchStatusAsWritten(404), NOT_FOUND);
    }
    var secret := db.records[found.value];
    var password := Decrypt(env, secret.encryptedPassword, secret.iv);
    if password.Err? {
      return ErrorReply(CatchStatusAsWritten(EXPRESS_DEFAULT_STATUS), password.error);
    }
    reply := Reply(200, RevealedView(secret, password.value));
  }

  /**
   * What `updateSecret` makes of the stored record `was`: title and category
   * are replaced only by a truthy value, tags by any array (so `[]` clears
   * them); websiteUrl, username and notes whenever present, even as `''`;
   * a truthy password is re-encrypted under the IV `random`, otherwise the
   * stored pair is kept. The setters trim title, websiteUrl and username,
   * and Mongoose moves `updatedAt` to `now` only when something changed.
   */
  ghost predicate UpdatedFrom(was: VaultSecret, r: VaultSecret, env: Environment, body: SecretBody,
                              now: int, random: seq<byte>)
  {
    && r.id == was.id && r.user == was.user && r.createdAt == was.createdAt
    && r.title == (if Truthy(body.title) then Trim(body.title.value) else was.title)
    && r.category == OrElse(body.category, was.category)
    && r.tags == (if body.tags.Some? then body.tags.value else was.tags)
    && r.websiteUrl == (if body.websiteUrl.Some? then Trim(body.websiteUrl.value) else was.websiteUrl)
    && r.username == (if body.username.Some? then Trim(body.username.value) else was.username)
    && r.notes == IfPresent(body.notes, was.notes)
    && (Truthy(body.password) ==>
          r.iv == Hex.Encode(random) && Decrypt(env, r.encryptedPassword, r.iv) == Ok(body.password.value))
    && (!Truthy(body.password) ==> r.encryptedPassword == was.encryptedPassword && r.iv == was.iv)
    && r.updatedAt == (if r.(updatedAt := was.updatedAt) == was then was.updatedAt else now)
  }

  /**
   * The merged document passes the schema's validators: the title (the
   * trimmed new one when truthy, else the stored one) is non-empty and at
   * most 100 characters, the category is in the enum, the notes at most 500.
   */
  predicate UpdateAccepted(was: VaultSecret, body: SecretBody) {
    var title := if Truthy(body.title) then Trim(body.title.value) else was.title;
    && title != "" && |title| <= TITLE_MAX_LENGTH
    && OrElse(body.category, was.category) in CATEGORIES
    && |IfPresent(body.notes, was.notes)| <= NOTES_MAX_LENGTH
  }

  /**
   * What a failed save of the merged document reports. The stored pair is
   * kept or replaced by a fresh one, so only title, category and notes can
   * fail, and these are the merged values.
   */
  function UpdateViolations(was: VaultSecret, body: SecretBody): seq<Violation> {
    Validate(Normalize(was.(title := OrElse(body.title, was.title),
                            category := OrElse(body.category, was.category),
                            notes := IfPresent(body.notes, was.notes))))
  }

  /** Saving the merged document succeeds exactly when the merge is accepted. */
  lemma MergedDocumentAccepted(was: VaultSecret, body: SecretBody, merged: VaultSecret)
    requires VaultSecretModel.Valid(was)
    requires merged.title == OrElse(body.title, was.title)
    requires merged.category == OrElse(body.category, was.category)
    requires merged.notes == IfPresent(body.notes, was.notes)
    requires merged.encryptedPassword != "" && merged.iv != ""
    ensures Save(merged).Ok? <==> UpdateAccepted(was, body)
  {
    TrimFixedPoint(was.title);
    SaveAccepts(merged);
  }

  /**
   * The document after the request's fields are assigned to `was` and before
   * it is saved: the raw (not yet trimmed) values, and the pair a truthy
   * password is re-encrypted to.
   */
  ghost predicate AssignedFrom(was: VaultSecret, d: VaultSecret, env: Environment, body: SecretBody,
                               random: seq<byte>)
  {
    && d.id == was.id && d.user == was.user && d.createdAt == was.createdAt && d.updatedAt == was.updatedAt
    && d.title == OrElse(body.title, was.title)
    && d.category == OrElse(body.category, was.category)
    && d.tags == (if body.tags.Some? then body.tags.value else was.tags)
    && d.websiteUrl == IfPresent(body.websiteUrl, was.websiteUrl)
    && d.username == IfPresent(body.username, was.username)
    && d.notes == IfPresent(body.notes, was.notes)
    && d.encryptedPassword != "" && d.iv != ""
    && (Truthy(body.password) ==>
          d.iv == Hex.Encode(random) && Decrypt(env, d.encryptedPassword, d.iv) == Ok(body.password.value))
    && (!Truthy(body.password) ==> d.encryptedPassword == was.encryptedPassword && d.iv == was.iv)
  }

  /**
   * The assignments of `updateSecret`: each field of the request onto the
   * stored document, and a truthy password re-encrypted under the IV
   * `random`. Fails only when encryption does, sent with the default status.
   */
  method AssignFields(was: VaultSecret, env: Environment, body: SecretBody, random: seq<byte>)
    returns (res: Result<VaultSecret, Reply<Updated>>)
    requires VaultSecretModel.Valid(was) && |random| == IV_LENGTH
    ensures res.Ok? <==> !Truthy(body.password) || KeyConfigured(env)
    ensures res.Err? ==> res.error == ErrorReply(EXPRESS_DEFAULT_STATUS, ENCRYPT_FAILED)
    ensures res.Ok? ==> AssignedFrom(was, res.value, env, body, random)
  {
    var secret := was;
    secret := secret.(title := OrElse(body.title, secret.title));
    secret := secret.(category := OrElse(body.category, secret.category));
    secret := secret.(tags := if body.tags.Some? then body.tags.value else secret.tags);
    secret := secret.(websiteUrl := IfPresent(body.websiteUrl, secret.websiteUrl));
    secret := secret.(username := IfPresent(body.username, secret.username));
    secret := secret.(notes := IfPresent(body.notes, secret.notes));
    if Truthy(body.password) {
      var sealed := Encrypt(env, body.password.value, random);
      if sealed.Err? {
        return Err(ErrorReply(CatchStatusAsWritten(EXPRESS_DEFAULT_STATUS), sealed.error));
      }
      EncryptDecrypt(env, body.password.value, random);
      secret := secret.(encryptedPassword := sealed.value.encrypted, iv := sealed.value.iv);
    }
    res := Ok(secret);
  }

  /**
   * Mongoose's timestamps on a save: `updatedAt` moves to `now` when the saved
   * document differs from the stored one, and stays otherwise.
   */
  function Stamp(was: VaultSecret, saved: VaultSecret, now: int): (r: VaultSecret)
    ensures r.(updatedAt := saved.updatedAt) == saved
    ensures saved == was ==> r == was
    ensures saved != was ==> r.updatedAt == now
  {
    if saved != was then saved.(updatedAt := now) else saved
  }

  /** The saved, stamped document is the update `UpdatedFrom` describes. */
  lemma SavedAsUpdated(was: VaultSecret, d: VaultSecret, env: Environment, body: SecretBody,
                       now: int, random: seq<byte>)
    requires VaultSecretModel.Valid(was) && AssignedFrom(was, d, env, body, random) && Save(d).Ok?
    ensures VaultSecretModel.Valid(Stamp(was, Save(d).value, now))
    ensures UpdatedFrom(was, Stamp(was, Save(d).value, now), env, body, now, random)
  {
    TrimFixedPoint(was.title);
    TrimFixedPoint(was.websiteUrl);
    TrimFixedPoint(was.username);
    var n := Save(d).value;
    assert n.updatedAt == was.updatedAt;
  }

  /**
   * The body of `updateSecret` between the lookup and the write: assigns the
   * request's fields to the document, re-encrypts a new password, and saves.
   * Fails with the cipher's error or the validation message; neither follows
   * a `res.status` call, so both are sent with the default status 200.
   */
  method ApplyUpdate(was: VaultSecret, env: Environment, body: SecretBody, now: int, random: seq<byte>)
    returns (res: Result<VaultSecret, Reply<Updated>>)
    requires VaultSecretModel.Valid(was) && |random| == IV_LENGTH
    ensures res.Ok? <==> (!Truthy(body.password) || KeyConfigured(env)) && UpdateAccepted(was, body)
    ensures res.Err? ==> res.error.ErrorReply? && res.error.status == EXPRESS_DEFAULT_STATUS
    ensures Truthy(body.password) && !KeyConfigured(env) ==>
              res == Err(ErrorReply(EXPRESS_DEFAULT_STATUS, ENCRYPT_FAILED))
    ensures (!Truthy(body.password) || KeyConfigured(env)) && !UpdateAccepted(was, body) ==>
              res == Err(ErrorReply(EXPRESS_DEFAULT_STATUS, ValidationMessage(UpdateViolations(was, body))))
    ensures res.Ok? ==> VaultSecretModel.Valid(res.value) && UpdatedFrom(was, res.value, env, body, now, random)
  {
    var draft := AssignFields(was, env, body, random);
    if draft.Err? {
      return Err(draft.error);
    }
    MergedDocumentAccepted(was, body, draft.value);
    var saved := Save(draft.value);
    if saved.Err? {
      SameValidatedFieldsSameViolations(draft.value, was.(title := OrElse(body.title, was.title),
                                                          category := OrElse(body.category, was.category),
                                                          notes := IfPresent(body.notes, was.notes)));
      return Err(ErrorReply(CatchStatusAsWritten(EXPRESS_DEFAULT_STATUS), ValidationMessage(saved.error)));
    }
    SavedAsUpdated(was, draft.value, env, body, now, random);
    res := Ok(Stamp(was, saved.value, now));
  }

  /** An update whose body carries none of the fields leaves a valid record exactly as it was. */
  lemma EmptyUpdateKeepsRecord(was: VaultSecret, r: VaultSecret, env: Environment, now: int, random: seq<byte>)
    requires VaultSecretModel.Valid(was)
    requires UpdatedFrom(was, r, env, SecretBody(None, None, None, None, None, None, None), now, random)
    ensures r == was
  {

  }

  /**
   * Empty values in an update: `''` for title or category keeps the stored
   * value, while `''` for websiteUrl, username or notes, and `[]` for the
   * tags, clear the field.
   */
  lemma EmptyValuesInUpdate(was: VaultSecret, r: VaultSecret, env: Environment, now: int, random: seq<byte>)
    requires UpdatedFrom(was, r, env, SecretBody(Some(""), None, Some(""), Some([]), Some(""), Some(""), Some("")),
                         now, random)
    ensures r.title == was.title && r.category == was.category
    ensures r.tags == [] && r.websiteUrl == "" && r.username == "" && r.notes == ""
  {
    TrimFixedPoint("");
  }

  /**
   * `updateSecret`: looks the record up among the caller's own, applies the
   * request to it and writes it back in place; every other record is kept.
   */
  method UpdateSecret(db: SecretCollection, env: Environment, caller: UserId, id: SecretId,
                      body: SecretBody, now: int, random: seq<byte>) returns (reply: Reply<Updated>)
    requires db.Valid() && |random| == IV_LENGTH
    modifies db
    ensures db.Valid() && db.nextId == old(db.nextId)
    ensures FindOwned(old(db.records), id, caller).None? <==> reply == ErrorReply(404, NOT_FOUND)
    ensures FindOwned(old(db.records), id, caller).Some? ==>
      (reply.Reply? <==>
         (!Truthy(body.password) || KeyConfigured(env))
         && UpdateAccepted(old(db.records)[FindOwned(old(db.records), id, caller).value], body))
    ensures reply.ErrorReply? ==> db.records == old(db.records)
    ensures FindOwned(old(db.records), id, caller).Some? && reply.ErrorReply? ==>
              reply.status == EXPRESS_DEFAULT_STATUS
    ensures FindOwned(old(db.records), id, caller).Some? && Truthy(body.password) && !KeyConfigured(env) ==>
              reply == ErrorReply(EXPRESS_DEFAULT_STATUS, ENCRYPT_FAILED)
    ensures FindOwned(old(db.records), id, caller).Some? && (!Truthy(body.password) || KeyConfigured(env))
            && !UpdateAccepted(old(db.records)[FindOwned(old(db.records), id, caller).value], body) ==>
              var was := old(db.records)[FindOwned(old(db.records), id, caller).value];
              reply == ErrorReply(EXPRESS_DEFAULT_STATUS, ValidationMessage(UpdateViolations(was, body)))
    ensures reply.Reply? ==>
      && FindOwned(old(db.records), id, caller).Some?
      && var i := FindOwned(old(db.records), id, caller).value;
      && |db.records| == |old(db.records)|
      && db.records == old(db.records)[i := db.records[i]]
      && reply == Reply(200, UpdatedView(db.records[i]))
      && UpdatedFrom(old(db.records)[i], db.records[i], env, body, now, random)
  {
    var found := FindOwned(db.records, id, caller);
    if found.None? {
      return ErrorReply(CatchStatusAsWritten(404), NOT_FOUND);
    }
    var i := found.value;
    assert db.records[i] in db.records;
    var merged := ApplyUpdate(db.records[i], env, body, now, random);
    if merged.Err? {
      return merged.error;
    }
    ReplaceKeepsValid(db.records, db.nextId, i, merged.value);
    db.records := db.records[i := merged.value];
    reply := Reply(200, UpdatedView(merged.value));
  }

  /** `deleteSecret`: removes the caller's record with this id, and nothing else. */
  method DeleteSecret(db: SecretCollection, caller: UserId, id: SecretId) returns (reply: Reply<string>)
    requires db.Valid()
    modifies db
    ensures db.Valid() && db.nextId == old(db.nextId)
    ensures FindOwned(old(db.records), id, caller).None? <==> reply == ErrorReply(404, NOT_FOUND)
    ensures FindOwned(old(db.records), id, caller).Some? ==> reply == Reply(200, DELETED)
    ensures reply.ErrorReply? ==> db.records == old(db.records)
    ensures reply.Reply? ==>
      && FindOwned(old(db.records), id, caller).Some?
      && var i := FindOwned(old(db.records), id, caller).value;
      && old(db.records)[i].user == caller
      && db.records == old(db.records)[..i] + old(db.records)[i + 1..]
  {
    var found := FindOwned(db.records, id, caller);
    if found.None? {
      return ErrorReply(CatchStatusAsWritten(404), NOT_FOUND);
    }
    var i := found.value;
    RemoveKeepsValid(db.records, db.nextId, i);
    db.records := db.records[..i] + db.records[i + 1..];
    reply := Reply(200, DELETED);
  }

  /** `passwordLength`: the requested length when it lies in 12..64, 24 otherwise. */
  function PasswordLength(length: Option<int>): (n: nat)
    ensures MIN_GENERATED_LENGTH <= n <= MAX_GENERATED_LENGTH
    ensures length.Some? && MIN_GENERATED_LENGTH <= length.value <= MAX_GENERATED_LENGTH ==> n == length.value
    ensures !(length.Some? && MIN_GENERATED_LENGTH <= length.value <= MAX_GENERATED_LENGTH) ==>
              n == DEFAULT_PASSWORD_LENGTH
  {
    match length
    case Some(l) =>
      if l != 0 && l >= MIN_GENERATED_LENGTH && l <= MAX_GENERATED_LENGTH then l else DEFAULT_PASSWORD_LENGTH
    case None => DEFAULT_PASSWORD_LENGTH
  }

  /** `generatePassword`: a password of the clamped length over the fixed alphabet. */
  method GeneratePassword(length: Option<int>, random: seq<byte>) returns (reply: Reply<string>)
    requires |random| == PasswordLength(length)
    ensures reply.Reply? && reply.status == 200
    ensures |reply.body| == PasswordLength(length)
    ensures MIN_GENERATED_LENGTH <= |reply.body| <= MAX_GENERATED_LENGTH
    ensures forall i :: 0 <= i < |reply.body| ==> reply.body[i] in CHARSET
  {
    var password := GenerateSecurePassword(random, PasswordLength(length));
    reply := Reply(200, password);
  }

  /**
   * A record with the category 'Personal', which the dashboard form offers but
   * the schema's enum does not hold, fails validation with an enum violation.
   */
  lemma PersonalCategoryIsRejected(draft: VaultSecret)
    requires draft.category == "Personal"
    ensures Save(draft).Err?
    ensures NotInEnum("category", "Personal") in Save(draft).error
  {
    PersonalIsNotACategory();
    assert Normalize(draft).category == "Personal";
  }

  /** The enum holds no 'Personal': the one entry of that length, 'Shopping', differs in its first letter. */
  lemma PersonalIsNotACategory()
    ensures "Personal" !in CATEGORIES
  {
    assert "Personal"[0] != "Shopping"[0];
  }
}
