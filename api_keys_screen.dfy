/** The state of the API-key settings screen (src/components/Settings/ApiKeys.jsx) and the
    handlers that change it. The seven useState fields are fields of ApiKeyManager; `table`
    stands for the rows of the store's api_keys table that the screen's queries see. Every
    call to the store, to getUser, to uuidv4, to window.confirm, to the clipboard and to the
    clock is replaced by a parameter carrying its result, and each asynchronous handler runs
    to completion in one step, including the list refresh it starts on success. */
module ApiKeysScreen {
  import opened ApiKeyRules

  class ApiKeyManager {
    /** The rows last loaded by a fetch, as the table shows them. */
    var apiKeys: seq<ApiKeyRecord>
    var loading: bool
    /** The error banner; None when it is hidden. */
    var error: Option<ErrorKind>
    /** The description input of the new-key form. */
    var description: string
    /** Whether the new-key form is open. */
    var showNewKey: bool
    /** The full key just created, shown once in the form. */
    var newKey: Option<string>
    var copySuccess: bool
    /** The store's api_keys rows visible to the signed-in user, newest first. */
    var table: seq<ApiKeyRecord>

    /** The screen as it mounts, over a store holding `rows`. */
    constructor (rows: seq<ApiKeyRecord>)
      ensures apiKeys == [] && loading && error == None && description == ""
      ensures !showNewKey && newKey == None && !copySuccess && table == rows
    {
      apiKeys := [];
      loading := true;
      error := None;
      description := "";
      showNewKey := false;
      newKey := None;
      copySuccess := false;
      table := rows;
    }

    /** Loads the list. On success the list becomes the store's rows and the banner is left
        alone; on failure the list is kept and the banner shows loadError. Either way the
        loading flag ends cleared. */
    method FetchApiKeys(queryFails: bool)
      modifies this`apiKeys, this`error, this`loading
      ensures !loading
      ensures queryFails ==> apiKeys == old(apiKeys) && error == Some(LoadError)
      ensures !queryFails ==> apiKeys == table && error == old(error)
    {
      if queryFails {
        error := Some(LoadError);
      } else {
        apiKeys := table;
      }
      loading := false;
    }

    /** Creates a key for the typed description. A blank description changes nothing. Otherwise
        the banner and the shown key are cleared, and: an auth failure or a missing user ends
        with authError or notAuthenticated and nothing inserted; a rejected insert ends with the
        kind its SQLSTATE code maps to; in all three the description is kept and no key is
        shown. A successful insert adds an active row owned and created by the user, shows the
        new `sk-` key, clears the description and refreshes the list. Loading ends cleared. */
    method GenerateApiKey(auth: AuthResult, uuid: string, reply: InsertReply, refreshFails: bool)
      modifies this`table, this`apiKeys, this`error, this`loading, this`description, this`newKey
      ensures IsBlank(old(description)) ==>
        table == old(table) && apiKeys == old(apiKeys) && error == old(error) &&
        loading == old(loading) && description == old(description) && newKey == old(newKey)
      ensures !IsBlank(old(description)) ==> !loading
      ensures !IsBlank(old(description)) && GenerateFailure(auth, reply).Some? ==>
        error == GenerateFailure(auth, reply) && newKey == None &&
        description == old(description) && table == old(table) && apiKeys == old(apiKeys)
      ensures !IsBlank(old(description)) && GenerateFailure(auth, reply) == None ==>
        table == [NewRecord(reply.id, old(description), GeneratedKey(uuid), auth.user, reply.createdAt)] + old(table) &&
        newKey == Some(GeneratedKey(uuid)) && description == "" &&
        (refreshFails ==> apiKeys == old(apiKeys) && error == Some(LoadError)) &&
        (!refreshFails ==> apiKeys == table && error == None)
    {
      var blank := Trim(description) == [];
      assert blank == IsBlank(description) by { TrimEmptyIffBlank(description); }
      if blank {
        return;
      }
      SubmitNewKey(auth, uuid, reply, refreshFails);
    }

    /** The part of GenerateApiKey past the blank-description guard: the three resets, the try
        block and its finally clause. */
    method SubmitNewKey(auth: AuthResult, uuid: string, reply: InsertReply, refreshFails: bool)
      modifies this`table, this`apiKeys, this`error, this`loading, this`description, this`newKey
      ensures !loading
      ensures GenerateFailure(auth, reply).Some? ==>
        error == GenerateFailure(auth, reply) && newKey == None &&
        description == old(description) && table == old(table) && apiKeys == old(apiKeys)
      ensures GenerateFailure(auth, reply) == None ==>
        table == [NewRecord(reply.id, old(description), GeneratedKey(uuid), auth.user, reply.createdAt)] + old(table) &&
        newKey == Some(GeneratedKey(uuid)) && description == "" &&
        (refreshFails ==> apiKeys == old(apiKeys) && error == Some(LoadError)) &&
        (!refreshFails ==> apiKeys == table && error == None)
    {
      error := None;
      loading := true;
      newKey := None;
      match auth {
        case AuthFailed =>
          error := Some(AuthError);
        case NoUser =>
          error := Some(NotAuthenticated);
        case SignedIn(user) =>
          var key := GeneratedKey(uuid);
          match reply {
            case Rejected(code) =>
              error := Some(InsertErrorKind(code));
            case Inserted(id, createdAt) =>
              table := [NewRecord(id, description, key, user, createdAt)] + table;
              newKey := Some(key);
              description := "";
              FetchApiKeys(refreshFails);
          }
      }
      loading := false;
    }

    /** Revokes the key with the given id. A declined confirmation changes nothing. Otherwise the
        banner is cleared; without a signed-in user, or when the store refuses the update, the
        table is untouched and the banner shows revokeError; else every row with that id gets
        revoked_at = now and user_id = the user, all other rows stay, and the list is
        refreshed. Loading ends cleared. */
    method RevokeApiKey(id: RecordId, confirmed: bool, now: Timestamp, auth: AuthResult, updateFails: bool, refreshFails: bool)
      modifies this`table, this`apiKeys, this`error, this`loading
      ensures !confirmed ==>
        table == old(table) && apiKeys == old(apiKeys) && error == old(error) && loading == old(loading)
      ensures confirmed ==> !loading
      ensures confirmed && (!auth.SignedIn? || updateFails) ==>
        table == old(table) && apiKeys == old(apiKeys) && error == Some(RevokeError)
      ensures confirmed && auth.SignedIn? && !updateFails ==>
        table == RevokedTable(old(table), id, now, auth.user) &&
        (refreshFails ==> apiKeys == old(apiKeys) && error == Some(LoadError)) &&
        (!refreshFails ==> apiKeys == table && error == None)
    {
      if !confirmed {
        return;
      }
      error := None;
      loading := true;
      if auth.SignedIn? && !updateFails {
        table := RevokedTable(table, id, now, auth.user);
        FetchApiKeys(refreshFails);
      } else {
        error := Some(RevokeError);
      }
      loading := false;
    }

    /** Deletes the key with the given id, whether or not it is revoked. A declined confirmation
        changes nothing. Otherwise the banner is cleared; when the store refuses, the table is
        untouched and the banner shows deleteError; else the rows with that id are removed and
        the list is refreshed. The handler itself never touches the loading flag: only the
        refresh after a successful delete clears it. */
    method DeleteApiKey(id: RecordId, confirmed: bool, deleteFails: bool, refreshFails: bool)
      modifies this`table, this`apiKeys, this`error, this`loading
      ensures !confirmed ==>
        table == old(table) && apiKeys == old(apiKeys) && error == old(error) && loading == old(loading)
      ensures confirmed && deleteFails ==>
        table == old(table) && apiKeys == old(apiKeys) && error == Some(DeleteError) && loading == old(loading)
      ensures confirmed && !deleteFails ==>
        table == DeletedTable(old(table), id) && !loading &&
        (refreshFails ==> apiKeys == old(apiKeys) && error == Some(LoadError)) &&
        (!refreshFails ==> apiKeys == table && error == None)
    {
      if !confirmed {
        return;
      }
      error := None;
      if deleteFails {
        error := Some(DeleteError);
      } else {
        table := DeletedTable(table, id);
        FetchApiKeys(refreshFails);
      }
    }

    /** A click on the button of displayed row j: the rows and their buttons are rendered only
        while the list is not loading. The button is chosen from the displayed row, not from the
        store, and the handler it runs is given that row's id: revoke for a row displayed as
        active, delete for one displayed as revoked. `storeFails` says whether the update or the
        delete is refused. */
    method ClickRowButton(j: nat, confirmed: bool, now: Timestamp, auth: AuthResult, storeFails: bool, refreshFails: bool)
      requires !loading && j < |apiKeys|
      modifies this`table, this`apiKeys, this`error, this`loading
      ensures !confirmed ==>
        table == old(table) && apiKeys == old(apiKeys) && error == old(error) && !loading
      ensures var shown := old(apiKeys)[j];
        confirmed && ActionOf(shown) == OfferRevoke && (!auth.SignedIn? || storeFails) ==>
        table == old(table) && apiKeys == old(apiKeys) && error == Some(RevokeError) && !loading
      ensures var shown := old(apiKeys)[j];
        confirmed && ActionOf(shown) == OfferDelete && storeFails ==>
        table == old(table) && apiKeys == old(apiKeys) && error == Some(DeleteError) && !loading
      ensures var shown := old(apiKeys)[j];
        confirmed && !storeFails && (ActionOf(shown) == OfferRevoke ==> auth.SignedIn?) ==>
        table == ApplyRowAction(old(table), shown, now, if auth.SignedIn? then auth.user else "") &&
        !loading &&
        (refreshFails ==> apiKeys == old(apiKeys) && error == Some(LoadError)) &&
        (!refreshFails ==> apiKeys == table && error == None)
    {
      var shown := apiKeys[j];
      match ActionOf(shown) {
        case OfferRevoke =>
          RevokeApiKey(shown.id, confirmed, now, auth, storeFails, refreshFails);
        case OfferDelete =>
          DeleteApiKey(shown.id, confirmed, storeFails, refreshFails);
      }
    }

    /** Copies a key to the clipboard: success raises the copied flag, failure shows copyError. */
    method CopyToClipboard(writeSucceeds: bool)
      modifies this`copySuccess, this`error
      ensures writeSucceeds ==> copySuccess && error == old(error)
      ensures !writeSucceeds ==> copySuccess == old(copySuccess) && error == Some(CopyError)
    {
      if writeSucceeds {
        copySuccess := true;
      } else {
        error := Some(CopyError);
      }
    }

    /** The timer set by a successful copy lowers the flag again. */
    method CopyTimerElapsed()
      modifies this`copySuccess
      ensures !copySuccess
    {
      copySuccess := false;
    }

    /** The generate button at the top opens the new-key form. */
    method OpenNewKeyForm()
      modifies this`showNewKey
      ensures showNewKey
    {
      showNewKey := true;
    }

    /** The description input. */
    method EditDescription(text: string)
      modifies this`description
      ensures description == text
    {
      description := text;
    }

    /** Cancel closes the form, empties the description and forgets the shown key. */
    method CancelNewKeyForm()
      modifies this`showNewKey, this`description, this`newKey
      ensures !showNewKey && description == "" && newKey == None
    {
      showNewKey := false;
      description := "";
      newKey := None;
    }
  }

  /** The life of one key: created as "CI pipeline", shown once in full and masked in the
      table, revoked (the row now offers delete), then deleted (the row is gone). */
  method CreateRevokeDeleteScenario(uuid: string)
    requires |uuid| == 36
  {
    var screen := new ApiKeyManager([]);
    screen.FetchApiKeys(false);
    assert screen.apiKeys == [] && !screen.loading;

    screen.OpenNewKeyForm();
    screen.EditDescription("CI pipeline");
    assert !IsBlank(screen.description) by {
      assert !IsJsWhitespace(screen.description[0]);
    }
    screen.GenerateApiKey(SignedIn("user-1"), uuid, Inserted("key-1", "2024-01-01T00:00:00.000Z"), false);
    var created := screen.apiKeys[0];
    assert |screen.apiKeys| == 1 && created.id == "key-1";
    assert screen.newKey == Some(created.key) && screen.description == "";
    GeneratedKeyMask(uuid);
    assert MaskApiKey(created.key) != created.key;
    assert StatusOf(created) == Active && ActionOf(created) == OfferRevoke;

    screen.RevokeApiKey("key-1", true, "2024-02-01T00:00:00.000Z", SignedIn("user-1"), false, false);
    var revoked := screen.apiKeys[0];
    assert |screen.apiKeys| == 1 && revoked.key == created.key;
    assert StatusOf(revoked) == Revoked && ActionOf(revoked) == OfferDelete;

    screen.DeleteApiKey("key-1", true, false, false);
    assert screen.apiKeys == [] && screen.error == None;
  }

  /** A revoke whose list refresh fails leaves the row displayed as active, so it still offers
      revoke, and a second click rewrites the stored revoked_at. */
  method StaleListScenario()
  {
    var row := ApiKeyRecord("key-1", "CI pipeline", "sk-x", "user-1", "user-1", "2024-01-01T00:00:00.000Z", None);
    var screen := new ApiKeyManager([row]);
    screen.FetchApiKeys(false);
    assert screen.apiKeys == [row];

    screen.ClickRowButton(0, true, "2024-02-01T00:00:00.000Z", SignedIn("user-1"), false, true);
    assert StatusOf(screen.table[0]) == Revoked && screen.error == Some(LoadError);
    assert screen.apiKeys == [row] && ActionOf(screen.apiKeys[0]) == OfferRevoke;

    screen.ClickRowButton(0, true, "2024-03-01T00:00:00.000Z", SignedIn("user-1"), false, false);
    assert screen.table[0].revokedAt.value == "2024-03-01T00:00:00.000Z";
  }
}
