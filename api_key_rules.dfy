/** The pure rules of the API-key settings screen (src/components/Settings/ApiKeys.jsx):
    the api_keys record and its two-state lifecycle, the user-facing error kinds, the
    mapping of an insert's SQLSTATE code to an error kind, JavaScript's String.prototype.trim
    as the description guard uses it, the key format and its masked display form, the action
    a table row offers, and the store's update-by-id and delete-by-id on the record table. */
module ApiKeyRules {

  datatype Option<T> = None | Some(value: T)

  type RecordId = string
  type UserId = string
  /** An ISO-8601 timestamp as `new Date().toISOString()` or the store produce it; never
      empty, so a set revoked_at is always truthy, as the row tests `key.revoked_at` take it. */
  type Timestamp = s: string | s != [] witness "1970-01-01T00:00:00.000Z"

  /** One row of the api_keys table. Columns: id, description, key, user_id, created_by,
      created_at, revoked_at. An absent revoked_at means the key is active. */
  datatype ApiKeyRecord = ApiKeyRecord(
    id: RecordId,
    description: string,
    key: string,
    userId: UserId,
    createdBy: UserId,
    createdAt: Timestamp,
    revokedAt: Option<Timestamp>)

  /** The message keys under settings.apiKeys.errors; the screen shows the translated text. */
  datatype ErrorKind =
    | LoadError
    | GenerateError
    | DuplicateDescription
    | AuthError
    | NotAuthenticated
    | ValidationError
    | RevokeError
    | DeleteError
    | CopyError

  /** PostgreSQL SQLSTATE codes of class 23 (integrity constraint violation) that the screen
      tells apart: unique_violation and not_null_violation. */
  const UniqueViolation: string := "23505"
  const NotNullViolation: string := "23502"

  /** The error kind shown when the insert of a new key fails with the given code. */
  function InsertErrorKind(code: string): (k: ErrorKind)
    ensures k == DuplicateDescription || k == ValidationError || k == GenerateError
    ensures k == DuplicateDescription <==> code == UniqueViolation
    ensures k == ValidationError <==> code == NotNullViolation
  {
    if code == UniqueViolation then DuplicateDescription
    else if code == NotNullViolation then ValidationError
    else GenerateError
  }

  /** What getUser reports: an error, no signed-in user, or the user's id. */
  datatype AuthResult = AuthFailed | NoUser | SignedIn(user: UserId)

  /** What the store answers to the insert: the row's store-assigned id and creation time,
      or a rejection with its SQLSTATE code (any other failure carries some other code). */
  datatype InsertReply = Inserted(id: RecordId, createdAt: Timestamp) | Rejected(code: string)

  /** Why a generate request that passed the description guard fails, if it does: the auth
      outcome is looked at first, and the insert reply only for a signed-in user. */
  function GenerateFailure(auth: AuthResult, reply: InsertReply): (f: Option<ErrorKind>)
    ensures f == None <==> auth.SignedIn? && reply.Inserted?
    ensures auth == AuthFailed ==> f == Some(AuthError)
    ensures auth == NoUser ==> f == Some(NotAuthenticated)
    ensures auth.SignedIn? && reply.Rejected? ==> f == Some(InsertErrorKind(reply.code))
  {
    match auth
    case AuthFailed => Some(AuthError)
    case NoUser => Some(NotAuthenticated)
    case SignedIn(_) =>
      match reply
      case Inserted(_, _) => None
      case Rejected(code) => Some(InsertErrorKind(code))
  }

  // ---------------------------------------------------------------------------------------
  // String.prototype.trim, as used by the guard `!description.trim()`

  /** WhiteSpace and LineTerminator code points of ECMAScript, the ones trim removes. */
  predicate IsJsWhitespace(c: char) {
    var n := c as int;
    n == 0x09 || n == 0x0A || n == 0x0B || n == 0x0C || n == 0x0D || n == 0x20 ||
    n == 0xA0 || n == 0x1680 || (0x2000 <= n <= 0x200A) || n == 0x2028 || n == 0x2029 ||
    n == 0x202F || n == 0x205F || n == 0x3000 || n == 0xFEFF
  }

  /** Every character of s is whitespace (the empty string included). */
  predicate IsBlank(s: string) {
    forall i :: 0 <= i < |s| ==> IsJsWhitespace(s[i])
  }

  /** s without its leading whitespace. */
  function TrimStart(s: string): (r: string)
    ensures |r| <= |s| && r == s[|s| - |r|..]
    ensures IsBlank(s[..|s| - |r|])
    ensures r == [] || !IsJsWhitespace(r[0])
  {
    if s != [] && IsJsWhitespace(s[0]) then
      var r := TrimStart(s[1..]);
      assert s[..|s| - |r|] == [s[0]] + s[1..][..|s| - 1 - |r|];
      r
    else s
  }

  /** s without its trailing whitespace. */
  function TrimEnd(s: string): (r: string)
    ensures |r| <= |s| && r == s[..|r|]
    ensures IsBlank(s[|r|..])
    ensures r == [] || !IsJsWhitespace(r[|r| - 1])
  {
    if s != [] && IsJsWhitespace(s[|s| - 1]) then
      var r := TrimEnd(s[..|s| - 1]);
      assert s[|r|..] == s[..|s| - 1][|r|..] + [s[|s| - 1]];
      r
    else s
  }

  /** r is empty, or starts and ends with a non-whitespace character. */
  predicate SolidEnds(r: string) {
    r == [] || (!IsJsWhitespace(r[0]) && !IsJsWhitespace(r[|r| - 1]))
  }

  /** r is what is left of s once a whitespace run k characters long is cut off its front and
      a whitespace run is cut off its back: a contiguous piece of s with solid ends. */
  predicate TrimmedAt(s: string, k: nat, r: string) {
    k + |r| <= |s| && r == s[k..k + |r|] && IsBlank(s[..k]) && IsBlank(s[k + |r|..]) &&
    SolidEnds(r)
  }

  /** `s.trim()`: s with its leading and its trailing run of whitespace removed, and nothing
      else. The leading run is the one TrimStart drops. */
  function Trim(s: string): (r: string)
    ensures TrimmedAt(s, |s| - |TrimStart(s)|, r)
  {
    TrimParts(s, TrimStart(s), TrimEnd(TrimStart(s)));
    TrimEnd(TrimStart(s))
  }

  /** A blank run cut off the front of s and then a blank run cut off the back of what is left:
      the part kept is a contiguous piece of s with only blank text on either side. */
  lemma TrimParts(s: string, t: string, r: string)
    requires |t| <= |s| && t == s[|s| - |t|..] && IsBlank(s[..|s| - |t|])
    requires t == [] || !IsJsWhitespace(t[0])
    requires |r| <= |t| && r == t[..|r|] && IsBlank(t[|r|..])
    requires r == [] || !IsJsWhitespace(r[|r| - 1])
    ensures TrimmedAt(s, |s| - |t|, r)
  {
    var k := |s| - |t|;
    assert s[k + |r|..] == t[|r|..];
    assert s[k..k + |r|] == t[..|r|];
  }

  /** `!s.trim()` holds exactly for the strings made only of whitespace. */
  lemma TrimEmptyIffBlank(s: string)
    ensures Trim(s) == [] <==> IsBlank(s)
  {
    var t := TrimStart(s);
    if Trim(s) == [] {
      assert s == s[..|s| - |t|] + t;
    }
  }

  // ---------------------------------------------------------------------------------------
  // Keys and their masked display form

  const KeyPrefix: string := "sk-"
  const Ellipsis: string := "..."

  /** The key the screen builds from a fresh UUID: `sk-` followed by it. */
  function GeneratedKey(uuid: string): (k: string)
    ensures |k| == |uuid| + 3 && k[..3] == KeyPrefix && k[3..] == uuid
  {
    KeyPrefix + uuid
  }

  /** `s.slice(0, n)`: at most the first n characters, counted as code points (JavaScript
      counts UTF-16 code units; the two agree on text within the Basic Multilingual Plane). */
  function SliceHead(s: string, n: nat): (r: string)
    ensures |r| == if |s| < n then |s| else n
    ensures r == s[..|r|]
  {
    if |s| < n then s else s[..n]
  }

  /** `s.slice(-n)` for n > 0: at most the last n characters, counted as code points (JavaScript
      counts UTF-16 code units; the two agree on text within the Basic Multilingual Plane). */
  function SliceTail(s: string, n: nat): (r: string)
    requires n > 0
    ensures |r| == if |s| < n then |s| else n
    ensures r == s[|s| - |r|..]
  {
    if |s| < n then s else s[|s| - n..]
  }

  /** The masked form shown in the table: first 8 characters, `...`, last 4. */
  function MaskApiKey(key: string): (m: string)
    ensures |key| >= 12 ==> |m| == 15
    ensures |key| >= 12 ==> m[..8] == key[..8] && m[8..11] == Ellipsis && m[11..] == key[|key| - 4..]
  {
    SliceHead(key, 8) + Ellipsis + SliceTail(key, 4)
  }

  /** For keys of at least 12 characters, two keys have the same mask exactly when they share
      their first 8 and their last 4 characters: the mask hides everything in between. */
  lemma MaskDeterminesEnds(a: string, b: string)
    requires |a| >= 12 && |b| >= 12
    ensures MaskApiKey(a) == MaskApiKey(b) <==> a[..8] == b[..8] && a[|a| - 4..] == b[|b| - 4..]
  {
    var ma, mb := MaskApiKey(a), MaskApiKey(b);
    if ma == mb {
      assert a[..8] == ma[..8] == mb[..8] == b[..8];
      assert a[|a| - 4..] == ma[11..] == mb[11..] == b[|b| - 4..];
    }
  }

  /** A generated key (`sk-` and a 36-character UUID) has 39 characters; its mask has 15, starts
      with `sk-` and the first five UUID characters, and ends with the UUID's last four. */
  lemma GeneratedKeyMask(uuid: string)
    requires |uuid| == 36
    ensures |GeneratedKey(uuid)| == 39
    ensures var m := MaskApiKey(GeneratedKey(uuid));
      |m| == 15 && m[..3] == KeyPrefix && m[3..8] == uuid[..5] && m[11..] == uuid[32..]
      && m != GeneratedKey(uuid)
  {
    var k := GeneratedKey(uuid);
    var m := MaskApiKey(k);
    assert m[..8] == k[..8];
    assert m[..3] == k[..8][..3] == k[..3];
    assert m[3..8] == k[..8][3..] == k[3..][..5];
    assert k[|k| - 4..] == k[3..][32..];
  }

  // ---------------------------------------------------------------------------------------
  // Record lifecycle and the action a row offers

  datatype Status = Active | Revoked
  datatype RowAction = OfferRevoke | OfferDelete

  /** The badge of a row. */
  function StatusOf(r: ApiKeyRecord): (s: Status)
    ensures s == Revoked <==> r.revokedAt.Some?
  {
    if r.revokedAt.Some? then Revoked else Active
  }

  /** The one action button of a row: revoke while active, delete once revoked. */
  function ActionOf(r: ApiKeyRecord): (a: RowAction)
    ensures a == OfferRevoke <==> r.revokedAt.None?
    ensures a == OfferDelete <==> r.revokedAt.Some?
  {
    if r.revokedAt.None? then OfferRevoke else OfferDelete
  }

  /** The badge and the button always agree: an active row offers revoke, a revoked one delete. */
  lemma ActionFollowsStatus(r: ApiKeyRecord)
    ensures ActionOf(r) == OfferRevoke <==> StatusOf(r) == Active
    ensures ActionOf(r) == OfferDelete <==> StatusOf(r) == Revoked
  {
  }

  /** A freshly inserted row: the owner is also its creator, and it is active. */
  function NewRecord(id: RecordId, description: string, key: string, user: UserId, at: Timestamp): (r: ApiKeyRecord)
    ensures r.id == id && r.description == description && r.key == key
    ensures r.userId == user && r.createdBy == user && r.createdAt == at
    ensures StatusOf(r) == Active
  {
    ApiKeyRecord(id, description, key, user, user, at, None)
  }

  // ---------------------------------------------------------------------------------------
  // The record table and the store's updates by id

  predicate HasId(table: seq<ApiKeyRecord>, id: RecordId) {
    exists i :: 0 <= i < |table| && table[i].id == id
  }

  /** Ids are the table's primary key. */
  predicate UniqueIds(table: seq<ApiKeyRecord>) {
    forall i, j :: 0 <= i < j < |table| ==> table[i].id != table[j].id
  }

  /** `update api_keys set revoked_at = at, user_id = user` applied to one row. */
  function RevokeRecord(r: ApiKeyRecord, at: Timestamp, user: UserId): (s: ApiKeyRecord)
    ensures StatusOf(s) == Revoked && s.revokedAt == Some(at) && s.userId == user
    ensures s.id == r.id && s.description == r.description && s.key == r.key
    ensures s.createdBy == r.createdBy && s.createdAt == r.createdAt
  {
    r.(revokedAt := Some(at), userId := user)
  }

  /** The table after `update ... where id = id`: every row with that id is revoked, every
      other row is left as it was, and the rows keep their places. */
  function RevokedTable(table: seq<ApiKeyRecord>, id: RecordId, at: Timestamp, user: UserId): (t: seq<ApiKeyRecord>)
    ensures |t| == |table|
    ensures forall i :: 0 <= i < |table| && table[i].id == id ==> t[i] == RevokeRecord(table[i], at, user)
    ensures forall i :: 0 <= i < |table| && table[i].id != id ==> t[i] == table[i]
  {
    if table == [] then []
    else
      var rest := RevokedTable(table[1..], id, at, user);
      var head := if table[0].id == id then RevokeRecord(table[0], at, user) else table[0];
      assert forall i :: 1 <= i < |table| ==> ([head] + rest)[i] == rest[i - 1];
      [head] + rest
  }

  /** The table after `delete from api_keys where id = id`: the rows with that id are gone,
      whatever their status, and every row with another id is kept. With unique ids the
      table loses exactly one row. */
  function DeletedTable(table: seq<ApiKeyRecord>, id: RecordId): (t: seq<ApiKeyRecord>)
    ensures |t| <= |table|
    ensures forall r :: r in t <==> r in table && r.id != id
    ensures !HasId(table, id) ==> t == table
    ensures HasId(table, id) ==> |t| < |table|
    ensures UniqueIds(table) && HasId(table, id) ==> |t| == |table| - 1
  {
    if table == [] then []
    else
      var rest := DeletedTable(table[1..], id);
      assert UniqueIds(table) ==> UniqueIds(table[1..]) by {
        if UniqueIds(table) { TailUniqueIds(table); }
      }
      assert HasId(table, id) && table[0].id != id ==> HasId(table[1..], id) by {
        if HasId(table, id) && table[0].id != id {
          var i :| 0 <= i < |table| && table[i].id == id;
          assert table[1..][i - 1].id == id;
        }
      }
      assert !HasId(table, id) ==> !HasId(table[1..], id) by {
        if HasId(table[1..], id) {
          var i :| 0 <= i < |table[1..]| && table[1..][i].id == id;
          assert table[i + 1].id == id;
        }
      }
      assert table == [table[0]] + table[1..];
      if table[0].id == id then rest else [table[0]] + rest
  }

  /** Deleting the same id twice is the same as deleting it once. */
  lemma DeleteIdempotent(table: seq<ApiKeyRecord>, id: RecordId)
    ensures DeletedTable(DeletedTable(table, id), id) == DeletedTable(table, id)
  {
  }

  /** Revoking keeps the ids, so a table with unique ids keeps them. */
  lemma RevokePreservesUniqueIds(table: seq<ApiKeyRecord>, id: RecordId, at: Timestamp, user: UserId)
    requires UniqueIds(table)
    ensures UniqueIds(RevokedTable(table, id, at, user))
  {
    var t := RevokedTable(table, id, at, user);
    forall i, j | 0 <= i < j < |t| ensures t[i].id != t[j].id {
      assert t[i].id == table[i].id && t[j].id == table[j].id;
    }
  }

  /** Deleting keeps the other rows in order, so a table with unique ids keeps them. */
  lemma {:induction false} DeletePreservesUniqueIds(table: seq<ApiKeyRecord>, id: RecordId)
    requires UniqueIds(table)
    ensures UniqueIds(DeletedTable(table, id))
  {
    if table != [] {
      var tail := table[1..];
      TailUniqueIds(table);
      DeletePreservesUniqueIds(tail, id);
      var rest := DeletedTable(tail, id);
      if table[0].id != id {
        forall r | r in rest ensures r.id != table[0].id {
          var k :| 0 <= k < |tail| && tail[k] == r;
          assert tail[k] == table[k + 1];
        }
        ConsUniqueIds(table[0], rest);
      }
    }
  }

  /** Dropping the first row keeps ids unique. */
  lemma TailUniqueIds(table: seq<ApiKeyRecord>)
    requires table != [] && UniqueIds(table)
    ensures UniqueIds(table[1..])
  {
    var tail := table[1..];
    forall i, j | 0 <= i < j < |tail| ensures tail[i].id != tail[j].id {
      assert tail[i] == table[i + 1] && tail[j] == table[j + 1];
    }
  }

  /** A row whose id no other row has can be put in front without breaking uniqueness. */
  lemma ConsUniqueIds(r: ApiKeyRecord, rest: seq<ApiKeyRecord>)
    requires UniqueIds(rest) && forall s :: s in rest ==> s.id != r.id
    ensures UniqueIds([r] + rest)
  {
    var t := [r] + rest;
    forall i, j | 0 <= i < j < |t| ensures t[i].id != t[j].id {
      if i == 0 {
        assert t[j] == rest[j - 1] && t[j] in rest;
      } else {
        assert t[i] == rest[i - 1] && t[j] == rest[j - 1];
      }
    }
  }

  /** What clicking the button of a displayed row does to the store's table, when the user
      confirms and the store accepts. The button is chosen from the row as displayed (the list
      last loaded), and the store is then updated by that row's id: revoke for a row displayed
      as active, delete for one displayed as revoked. */
  function ApplyRowAction(table: seq<ApiKeyRecord>, shown: ApiKeyRecord, at: Timestamp, user: UserId): (t: seq<ApiKeyRecord>)
    ensures StatusOf(shown) == Active ==> |t| == |table|
    ensures StatusOf(shown) == Active ==> forall j :: 0 <= j < |table| ==>
      t[j] == if table[j].id == shown.id then RevokeRecord(table[j], at, user) else table[j]
    ensures StatusOf(shown) == Revoked ==> forall r :: r in t <==> r in table && r.id != shown.id
    ensures StatusOf(shown) == Revoked ==> !HasId(t, shown.id)
  {
    match ActionOf(shown)
    case OfferRevoke => RevokedTable(table, shown.id, at, user)
    case OfferDelete => DeletedTable(table, shown.id)
  }

  /** While the displayed row is the store's current row, the row buttons never change a revoked
      record again: after the action it is either still in the table exactly as it was, or gone
      altogether. No row goes back from revoked to active, and revoked_at is not rewritten. */
  lemma RowActionKeepsRevokedRecords(table: seq<ApiKeyRecord>, shown: ApiKeyRecord, at: Timestamp, user: UserId)
    requires UniqueIds(table) && shown in table
    ensures forall r :: r in table && StatusOf(r) == Revoked ==>
      r in ApplyRowAction(table, shown, at, user) || !HasId(ApplyRowAction(table, shown, at, user), r.id)
  {
    var t := ApplyRowAction(table, shown, at, user);
    var i :| 0 <= i < |table| && table[i] == shown;
    forall r | r in table && StatusOf(r) == Revoked
      ensures r in t || !HasId(t, r.id)
    {
      var j :| 0 <= j < |table| && table[j] == r;
      if ActionOf(shown) == OfferRevoke {
        assert j != i;
        assert t[j] == r;
      }
    }
  }

  /** Once the displayed row is stale, the guarantee above is lost. After a revoke whose list
      refresh failed, the row is still displayed as active and still offers revoke; clicking it
      again rewrites the stored revoked_at. */
  lemma StaleRowRewritesRevokedAt()
    ensures var shown := ApiKeyRecord("k1", "CI", "sk-x", "u", "u", "2024-01-01T00:00:00.000Z", None);
      var stored := RevokeRecord(shown, "2024-02-01T00:00:00.000Z", "u");
      var t := ApplyRowAction([stored], shown, "2024-03-01T00:00:00.000Z", "u");
      ActionOf(shown) == OfferRevoke && StatusOf(stored) == Revoked &&
      t[0].revokedAt.Some? && t[0].revokedAt.value == "2024-03-01T00:00:00.000Z" && t[0] != stored
  {
  }
}
