/**
 * The VaultSecret schema of backend/models/VaultSecret.js: the record a user
 * stores, the `trim` setters applied when a field is assigned, and the
 * validators (required, maxlength, enum) run before a save.
 */
module VaultSecretModel {
  import opened Wrappers

  type UserId = nat
  type SecretId = nat

  const TITLE_MAX_LENGTH: nat := 100
  const NOTES_MAX_LENGTH: nat := 500
  const CATEGORIES: seq<string> := ["Social", "Work", "Finance", "Shopping", "Entertainment", "Other"]
  const DEFAULT_CATEGORY: string := "Other"

  /** One stored document; `createdAt`/`updatedAt` are the schema's timestamps. */
  datatype VaultSecret = VaultSecret(
    id: SecretId,
    user: UserId,
    title: string,
    encryptedPassword: string,
    iv: string,
    category: string,
    tags: seq<string>,
    websiteUrl: string,
    username: string,
    notes: string,
    createdAt: int,
    updatedAt: int)

  /** The characters `String.prototype.trim` removes: white space and line terminators. */
  predicate IsJsWhitespace(c: char) {
    c == '\t' || c == '\n' || c == '\U{000B}' || c == '\U{000C}' || c == '\r' || c == ' '
    || c == '\U{00A0}' || c == '\U{1680}' || ('\U{2000}' <= c <= '\U{200A}')
    || c == '\U{2028}' || c == '\U{2029}' || c == '\U{202F}' || c == '\U{205F}'
    || c == '\U{3000}' || c == '\U{FEFF}'
  }

  predicate IsTrimmed(s: string) {
    s == [] || (!IsJsWhitespace(s[0]) && !IsJsWhitespace(s[|s| - 1]))
  }

  /** Drops leading white space: the longest white-space prefix goes, nothing else. */
  function TrimStart(s: string): (r: string)
    ensures |r| <= |s| && r == s[|s| - |r|..]
    ensures r == [] || !IsJsWhitespace(r[0])
    ensures forall i :: 0 <= i < |s| - |r| ==> IsJsWhitespace(s[i])
  {
    if s != [] && IsJsWhitespace(s[0]) then TrimStart(s[1..]) else s
  }

  /** Drops trailing white space: the longest white-space suffix goes, nothing else. */
  function TrimEnd(s: string): (r: string)
    ensures |r| <= |s| && r == s[..|r|]
    ensures r == [] || !IsJsWhitespace(r[|r| - 1])
    ensures forall i :: |r| <= i < |s| ==> IsJsWhitespace(s[i])
  {
    if s != [] && IsJsWhitespace(s[|s| - 1]) then TrimEnd(s[..|s| - 1]) else s
  }

  /** `String.prototype.trim`, the schema's `trim: true` setter. */
  function Trim(s: string): (r: string)
  {
    TrimEnd(TrimStart(s))
  }

  /** How many white-space characters `Trim` removes from the front of `s`. */
  function LeadingSpace(s: string): (n: nat)
    ensures n <= |s|
  {
    |s| - |TrimStart(s)|
  }

  /** Trim's result is the slice of its input that starts after the leading white space. */
  lemma TrimIsSlice(s: string)
    ensures LeadingSpace(s) + |Trim(s)| <= |s|
    ensures Trim(s) == s[LeadingSpace(s)..LeadingSpace(s) + |Trim(s)|]
  {
    var a := TrimStart(s);
    var b := TrimEnd(a);
    assert a == s[|s| - |a|..] && b == a[..|b|];
  }

  /** Trim leaves no white space at either end of its result. */
  lemma TrimLeavesNoSpaceAtEnds(s: string)
    ensures IsTrimmed(Trim(s))
  {
    var a := TrimStart(s);
    var b := TrimEnd(a);
    if b != [] {
      assert b[0] == a[0];
    }
  }

  /** Everything after Trim's result is white space. */
  lemma TrailingSpaceIsSpace(s: string)
    ensures forall k :: LeadingSpace(s) + |Trim(s)| <= k < |s| ==> IsJsWhitespace(s[k])
  {
    var a := TrimStart(s);
    var i := |s| - |a|;
    var j := i + |TrimEnd(a)|;
    forall k | j <= k < |s| ensures IsJsWhitespace(s[k]) {
      assert s[k] == a[k - i];
    }
  }

  /**
   * Trim keeps one contiguous piece of its input, with white space only
   * outside it and none at its ends.
   */
  lemma TrimKeepsCore(s: string)
    ensures IsTrimmed(Trim(s))
    ensures LeadingSpace(s) + |Trim(s)| <= |s|
    ensures Trim(s) == s[LeadingSpace(s)..LeadingSpace(s) + |Trim(s)|]
    ensures forall k :: 0 <= k < LeadingSpace(s) ==> IsJsWhitespace(s[k])
    ensures forall k :: LeadingSpace(s) + |Trim(s)| <= k < |s| ==> IsJsWhitespace(s[k])
  {
    TrimIsSlice(s);
    TrimLeavesNoSpaceAtEnds(s);
    TrailingSpaceIsSpace(s);
  }

  /** A string is a fixed point of trim exactly when it has no white space at either end. */
  lemma TrimFixedPoint(s: string)
    ensures Trim(s) == s <==> IsTrimmed(s)
  {
    TrimKeepsCore(s);
    if IsTrimmed(s) && s != [] {
      assert TrimStart(s) == s;
      assert TrimEnd(s) == s;
    }
  }

  /** Trimming twice is trimming once, so saving a record again does not change it. */
  lemma TrimIdempotent(s: string)
    ensures Trim(Trim(s)) == Trim(s)
  {
    TrimKeepsCore(s);
    TrimFixedPoint(Trim(s));
  }

  /** A failed validator: the path and the rule it broke, in Mongoose's terms. */
  datatype Violation =
    | Required(path: string, message: string)
    | MaxLength(path: string, value: string, max: string)
    | NotInEnum(path: string, value: string)

  /** The text Mongoose gives each failed validator. */
  function ViolationMessage(v: Violation): string {
    match v
    case Required(_, message) => message
    case MaxLength(path, value, max) =>
      "Path `" + path + "` (`" + value + "`) is longer than the maximum allowed length (" + max + ")."
    case NotInEnum(path, value) => "`" + value + "` is not a valid enum value for path `" + path + "`."
  }

  function JoinViolations(vs: seq<Violation>): string {
    if vs == [] then ""
    else
      var head := vs[0].path + ": " + ViolationMessage(vs[0]);
      if |vs| == 1 then head else head + ", " + JoinViolations(vs[1..])
  }

  /** The `message` of the ValidationError a failed save throws. */
  function ValidationMessage(vs: seq<Violation>): string {
    "VaultSecret validation failed: " + JoinViolations(vs)
  }

  /** What the schema's validators demand of a (trimmed) record. */
  predicate SatisfiesValidators(r: VaultSecret) {
    && r.title != "" && |r.title| <= TITLE_MAX_LENGTH
    && r.encryptedPassword != ""
    && r.iv != ""
    && r.category in CATEGORIES
    && |r.notes| <= NOTES_MAX_LENGTH
  }

  /** The setters' effect: the three `trim: true` fields carry no outer white space. */
  predicate IsNormalized(r: VaultSecret) {
    IsTrimmed(r.title) && IsTrimmed(r.websiteUrl) && IsTrimmed(r.username)
  }

  /** Every record the collection holds satisfies the schema. */
  predicate Valid(r: VaultSecret) {
    SatisfiesValidators(r) && IsNormalized(r)
  }

  /** Assigning the fields applies the `trim` setters. */
  function Normalize(r: VaultSecret): (n: VaultSecret)
    ensures IsNormalized(n)
    ensures n.title == Trim(r.title) && n.websiteUrl == Trim(r.websiteUrl) && n.username == Trim(r.username)
    ensures n.id == r.id && n.user == r.user && n.encryptedPassword == r.encryptedPassword && n.iv == r.iv
    ensures n.category == r.category && n.tags == r.tags && n.notes == r.notes
    ensures n.createdAt == r.createdAt && n.updatedAt == r.updatedAt
  {
    TrimKeepsCore(r.title);
    TrimKeepsCore(r.websiteUrl);
    TrimKeepsCore(r.username);
    r.(title := Trim(r.title), websiteUrl := Trim(r.websiteUrl), username := Trim(r.username))
  }

  /** The `title` path: required, then at most 100 characters. */
  function TitleViolations(title: string): seq<Violation> {
    if title == "" then [Required("title", "Title is required")]
    else if |title| > TITLE_MAX_LENGTH then [MaxLength("title", title, "100")]
    else []
  }

  /** A `required` path with its custom message; only presence matters. */
  function RequiredViolations(present: bool, path: string, message: string): seq<Violation> {
    if present then [] else [Required(path, message)]
  }

  /** The `category` path: one of the enum's values. */
  function CategoryViolations(category: string): seq<Violation> {
    if category !in CATEGORIES then [NotInEnum("category", category)] else []
  }

  /** The `notes` path: at most 500 characters. */
  function NotesViolations(notes: string): seq<Violation> {
    if |notes| > NOTES_MAX_LENGTH then [MaxLength("notes", notes, "500")] else []
  }

  /**
   * The validators, path by path in schema order; each path reports its first
   * failing rule only (a required title that is empty is not also too long).
   */
  function Validate(r: VaultSecret): (vs: seq<Violation>)
    ensures vs == [] <==> SatisfiesValidators(r)
    ensures r.title == "" ==> Required("title", "Title is required") in vs
    ensures r.category !in CATEGORIES ==> NotInEnum("category", r.category) in vs
    ensures |r.notes| > NOTES_MAX_LENGTH ==> MaxLength("notes", r.notes, "500") in vs
  {
    TitleViolations(r.title)
    + RequiredViolations(r.encryptedPassword != "", "encryptedPassword", "Encrypted password is required")
    + RequiredViolations(r.iv != "", "iv", "IV is required for decryption")
    + CategoryViolations(r.category)
    + NotesViolations(r.notes)
  }

  /**
   * What a `create` or `save` does to a draft: apply the setters, run the
   * validators, and either store the normalised record or throw.
   */
  function Save(draft: VaultSecret): (r: Result<VaultSecret, seq<Violation>>)
    ensures r.Ok? <==> SatisfiesValidators(Normalize(draft))
    ensures r.Ok? ==> Valid(r.value) && r.value == Normalize(draft)
    ensures r.Err? ==> r.error != [] && r.error == Validate(Normalize(draft))
  {
    var n := Normalize(draft);
    var vs := Validate(n);
    if vs == [] then Ok(n) else Err(vs)
  }

  /**
   * Which drafts a save accepts, in terms of the draft as assigned: of the
   * trimmed fields only the title is validated, so the setters matter only there.
   */
  lemma SaveAccepts(d: VaultSecret)
    ensures Save(d).Ok? <==>
      && Trim(d.title) != "" && |Trim(d.title)| <= TITLE_MAX_LENGTH
      && d.encryptedPassword != "" && d.iv != ""
      && d.category in CATEGORIES
      && |d.notes| <= NOTES_MAX_LENGTH
  {
    assert SatisfiesValidators(Normalize(d)) <==>
      && Trim(d.title) != "" && |Trim(d.title)| <= TITLE_MAX_LENGTH
      && d.encryptedPassword != "" && d.iv != ""
      && d.category in CATEGORIES
      && |d.notes| <= NOTES_MAX_LENGTH;
  }

  /** What a failed save reports depends only on the fields the validators read. */
  lemma SameValidatedFieldsSameViolations(a: VaultSecret, b: VaultSecret)
    requires a.title == b.title && a.category == b.category && a.notes == b.notes
    requires (a.encryptedPassword == "") == (b.encryptedPassword == "")
    requires (a.iv == "") == (b.iv == "")
    ensures Validate(Normalize(a)) == Validate(Normalize(b))
  {
    var na, nb := Normalize(a), Normalize(b);
    assert na.title == nb.title && na.category == nb.category && na.notes == nb.notes;
    assert (na.encryptedPassword == "") == (nb.encryptedPassword == "") && (na.iv == "") == (nb.iv == "");
  }

  /** A record that already satisfies the schema is saved as it is. */
  lemma SaveValidIsIdentity(r: VaultSecret)
    requires Valid(r)
    ensures Save(r) == Ok(r)
  {
    TrimFixedPoint(r.title);
    TrimFixedPoint(r.websiteUrl);
    TrimFixedPoint(r.username);
  }

  /** No two records share an id. */
  ghost predicate DistinctIds(rs: seq<VaultSecret>) {
    forall i, j :: 0 <= i < j < |rs| ==> rs[i].id != rs[j].id
  }

  /** The collection invariant: every record satisfies the schema, and ids are issued and distinct. */
  ghost predicate RecordsValid(rs: seq<VaultSecret>, nextId: SecretId) {
    && (forall x :: x in rs ==> Valid(x) && x.id < nextId)
    && DistinctIds(rs)
  }

  /**
   * The VaultSecret collection, in insertion order. `nextId` stands for the
   * ObjectId generator: ids are issued once and never reused.
   */
  class SecretCollection {
    var records: seq<VaultSecret>
    var nextId: SecretId

    ghost predicate Valid()
      reads this
    {
      RecordsValid(records, nextId)
    }

    constructor ()
      ensures Valid() && records == []
    {
      records := [];
      nextId := 0;
    }

    /** The insert behind `Model.create`: stores a validated record under the next id. */
    method Insert(r: VaultSecret)
      requires Valid() && SatisfiesValidators(r) && IsNormalized(r) && r.id == nextId
      modifies this
      ensures Valid()
      ensures records == old(records) + [r] && nextId == old(nextId) + 1
    {
      AppendKeepsValid(records, nextId, r);
      records := records + [r];
      nextId := nextId + 1;
    }
  }

  /**
   * `findOne({ _id: id, user: owner })`: the position of the record with this
   * id and this owner, if there is one.
   */
  function FindOwned(rs: seq<VaultSecret>, id: SecretId, owner: UserId): (r: Option<nat>)
    ensures r.Some? ==> r.value < |rs| && rs[r.value].id == id && rs[r.value].user == owner
    ensures r.None? <==> forall i :: 0 <= i < |rs| ==> !(rs[i].id == id && rs[i].user == owner)
  {
    if rs == [] then None
    else if rs[0].id == id && rs[0].user == owner then Some(0)
    else
      match FindOwned(rs[1..], id, owner)
      case None => None
      case Some(i) => Some(i + 1)
  }

  /** `find({ user: owner })`: the owner's records, in collection order. */
  function OwnedBy(rs: seq<VaultSecret>, owner: UserId): (r: seq<VaultSecret>)
    ensures forall x :: x in r ==> x in rs && x.user == owner
    ensures forall x :: x in rs && x.user == owner ==> x in r
  {
    if rs == [] then []
    else if rs[0].user == owner then [rs[0]] + OwnedBy(rs[1..], owner)
    else OwnedBy(rs[1..], owner)
  }

  /** What `deleteMany({ user: owner })` leaves: every record of someone else. */
  function NotOwnedBy(rs: seq<VaultSecret>, owner: UserId): (r: seq<VaultSecret>)
    ensures forall x :: x in r ==> x in rs && x.user != owner
    ensures forall x :: x in rs && x.user != owner ==> x in r
  {
    if rs == [] then []
    else if rs[0].user != owner then [rs[0]] + NotOwnedBy(rs[1..], owner)
    else NotOwnedBy(rs[1..], owner)
  }

  /** Every record is either the owner's or someone else's, so the two counts add up. */
  lemma {:induction false} PartitionCount(rs: seq<VaultSecret>, owner: UserId)
    ensures |OwnedBy(rs, owner)| + |NotOwnedBy(rs, owner)| == |rs|
  {
    if rs != [] {
      PartitionCount(rs[1..], owner);
    }
  }

  /** With distinct ids, no later record shares the first record's id. */
  lemma HeadIdIsFresh(rs: seq<VaultSecret>)
    requires rs != [] && DistinctIds(rs)
    ensures forall x :: x in rs[1..] ==> x.id != rs[0].id
  {
    forall x | x in rs[1..] ensures x.id != rs[0].id {
      var k :| 0 <= k < |rs[1..]| && rs[1..][k] == x;
      assert rs[k + 1] == x;
    }
  }

  /** Removing the owner's records keeps the ids distinct. */
  lemma {:induction false} NotOwnedByKeepsDistinct(rs: seq<VaultSecret>, owner: UserId)
    requires DistinctIds(rs)
    ensures DistinctIds(NotOwnedBy(rs, owner))
  {
    if rs != [] {
      var tail := rs[1..];
      NotOwnedByKeepsDistinct(tail, owner);
      var rest := NotOwnedBy(tail, owner);
      if rs[0].user != owner {
        var r := [rs[0]] + rest;
        HeadIdIsFresh(rs);
        forall i, j | 0 <= i < j < |r| ensures r[i].id != r[j].id {
          assert r[j] == rest[j - 1] && r[j] in tail;
          if i != 0 {
            assert r[i] == rest[i - 1];
          }
        }
      }
    }
  }

  /** Removing the owner's records keeps the collection invariant. */
  lemma NotOwnedByKeepsValid(rs: seq<VaultSecret>, owner: UserId, nextId: SecretId)
    requires RecordsValid(rs, nextId)
    ensures RecordsValid(NotOwnedBy(rs, owner), nextId)
  {
    NotOwnedByKeepsDistinct(rs, owner);
  }

  /** Appending a valid record under a fresh id keeps the collection invariant. */
  lemma AppendKeepsValid(rs: seq<VaultSecret>, nextId: SecretId, r: VaultSecret)
    requires RecordsValid(rs, nextId) && Valid(r) && r.id == nextId
    ensures RecordsValid(rs + [r], nextId + 1)
  {
    var rs' := rs + [r];
    forall i, j | 0 <= i < j < |rs'| ensures rs'[i].id != rs'[j].id {
      assert rs'[i] in rs;
      if j < |rs| {
        assert rs'[i] == rs[i] && rs'[j] == rs[j];
      }
    }
  }

  /** Replacing a record by a valid one with the same id keeps the collection invariant. */
  lemma ReplaceKeepsValid(rs: seq<VaultSecret>, nextId: SecretId, i: nat, r: VaultSecret)
    requires RecordsValid(rs, nextId) && i < |rs| && Valid(r) && r.id == rs[i].id
    ensures RecordsValid(rs[i := r], nextId)
  {
    var rs' := rs[i := r];
    forall x | x in rs' ensures Valid(x) && x.id < nextId {
      var k :| 0 <= k < |rs'| && rs'[k] == x;
      if k != i {
        assert x == rs[k];
      }
    }
    forall j, k | 0 <= j < k < |rs'| ensures rs'[j].id != rs'[k].id {
      assert rs'[j].id == rs[j].id && rs'[k].id == rs[k].id;
    }
  }

  /** Removing the record at position `i` keeps the collection invariant. */
  lemma RemoveKeepsValid(rs: seq<VaultSecret>, nextId: SecretId, i: nat)
    requires RecordsValid(rs, nextId) && i < |rs|
    ensures RecordsValid(rs[..i] + rs[i + 1..], nextId)
  {
    var rs' := rs[..i] + rs[i + 1..];
    forall x | x in rs' ensures x in rs {
      var k :| 0 <= k < |rs'| && rs'[k] == x;
      assert x == rs[if k < i then k else k + 1];
    }
    forall j, k | 0 <= j < k < |rs'| ensures rs'[j].id != rs'[k].id {
      var j' := if j < i then j else j + 1;
      var k' := if k < i then k else k + 1;
      assert rs'[j] == rs[j'] && rs'[k] == rs[k'];
    }
  }
}
