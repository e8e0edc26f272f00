/** The account registry of bot.py: the `registered_accounts.json`
    document (guild id -> user id -> ordered list of summoner names) and the
    `register`, `list`, `remove` and `update` commands that read it, check
    ownership and uniqueness, and produce the document to write back.

    Each command is a method over the loaded document that either rejects
    the request (nothing is written) or returns the whole new document. Each
    method is proved equal to a specification function (`RegisterResult`,
    `Listing`, `RemoveResult`, `UpdateResult`), and the lemmas below state
    what the bot promises about those functions. */
module Registry {
  import opened Lists
  import opened OrderedDict

  type GuildId = string
  type UserId = string
  type Alias = string

  /** One guild's record: user id -> that user's summoner names, in the order registered. */
  type Accounts = Dict<seq<Alias>>

  /** The whole stored document. */
  type Document = Dict<Accounts>

  /** Why a command was refused; one tag per reply the bot sends instead of saving. */
  datatype RegistryError =
    | AlreadyRegistered     // register: the name is in some user's list in this guild
    | NoAccounts            // remove / update: the guild or the caller has no entry
    | NotRegisteredByUser   // remove: the name is not in the caller's own list
    | OldNameNotFound       // update: the old name is not in the caller's own list
    | NewNameTaken          // update: the new name is in some user's list in this guild

  /** A mutating command either writes back a new document or changes nothing. */
  datatype Outcome = Saved(doc: Document) | Rejected(error: RegistryError)

  /** One line of the `list` reply: a user and that user's names. */
  datatype Line = Line(user: UserId, aliases: seq<Alias>)

  datatype ListReply = NoAccountsOnServer | Lines(lines: seq<Line>)

  /** Any document `json.load` can produce in this shape: both levels are dictionaries. */
  ghost predicate WellFormed(doc: Document) {
    && Valid(doc)
    && forall g :: g in doc.entries ==> Valid(doc.entries[g])
  }

  /** The guild's record, or `{}` when the guild has none. */
  function Guild(doc: Document, g: GuildId): (rec: Accounts)
    requires WellFormed(doc)
    ensures Valid(rec)
  {
    if g in doc.entries then doc.entries[g] else Empty()
  }

  /** The user's list in a record, or `[]` when the user has none. */
  function AliasesOf(rec: Accounts, u: UserId): seq<Alias> {
    if u in rec.entries then rec.entries[u] else []
  }

  /** Some user of the guild (the caller included) already lists `a`. */
  ghost predicate Claimed(rec: Accounts, a: Alias) {
    exists u :: u in rec.entries && a in rec.entries[u]
  }

  /** Invariant I1 for one guild: a name occurs at most once in the whole
      record, neither under two users nor twice in one list. */
  ghost predicate UniqueAliases(rec: Accounts) {
    && (forall u :: u in rec.entries ==> NoDup(rec.entries[u]))
    && (forall u1, u2, a ::
          u1 in rec.entries && u2 in rec.entries && a in rec.entries[u1] && a in rec.entries[u2]
          ==> u1 == u2)
  }

  /** Invariants I2 and I3 for one guild: no user key with an empty list,
      and the record itself is not empty. */
  ghost predicate NoEmptyEntries(rec: Accounts) {
    && !IsEmpty(rec)
    && forall u :: u in rec.entries ==> rec.entries[u] != []
  }

  /** The registry invariant over the whole document. */
  ghost predicate Invariant(doc: Document) {
    && WellFormed(doc)
    && forall g :: g in doc.entries ==>
         UniqueAliases(doc.entries[g]) && NoEmptyEntries(doc.entries[g])
  }

  // ---------------------------------------------------------------------
  // Specification functions

  /** `register`: refused when any user of the guild already lists the name;
      otherwise the name goes last in the caller's list, creating the guild
      and the user entry when they are missing. */
  ghost function RegisterResult(doc: Document, g: GuildId, u: UserId, a: Alias): Outcome
    requires WellFormed(doc)
  {
    var rec := Guild(doc, g);
    if Claimed(rec, a) then Rejected(AlreadyRegistered)
    else Saved(Put(doc, g, Put(rec, u, AliasesOf(rec, u) + [a])))
  }

  /** `list`: one line per user key of the guild, in the document's key order. */
  ghost function Listing(doc: Document, g: GuildId): ListReply
    requires WellFormed(doc)
  {
    if g !in doc.entries || IsEmpty(doc.entries[g]) then NoAccountsOnServer
    else
      var rec := doc.entries[g];
      Lines(seq(|rec.keys|, i requires 0 <= i < |rec.keys| => Line(rec.keys[i], rec.entries[rec.keys[i]])))
  }

  /** `remove`: only the caller's own names can be removed; an emptied user
      entry is deleted, and then an emptied guild record. */
  ghost function RemoveResult(doc: Document, g: GuildId, u: UserId, a: Alias): Outcome
    requires WellFormed(doc)
  {
    if g !in doc.entries || u !in doc.entries[g].entries then Rejected(NoAccounts)
    else
      var rec := doc.entries[g];
      if a !in rec.entries[u] then Rejected(NotRegisteredByUser)
      else
        Saved(WithRecord(doc, g, WithList(rec, u, RemoveFirst(rec.entries[u], a))))
  }

  /** The record once the caller's list has become `rest`: the list is
      stored back, or the user key deleted when `rest` is empty. */
  function WithList(rec: Accounts, u: UserId, rest: seq<Alias>): Accounts
    requires Valid(rec) && u in rec.entries
  {
    if rest == [] then Delete(rec, u) else Put(rec, u, rest)
  }

  /** The document once the guild's record has become `rec`: the record is
      stored back, or the guild key deleted when `rec` is empty. */
  function WithRecord(doc: Document, g: GuildId, rec: Accounts): Document
    requires Valid(doc) && g in doc.entries
  {
    if IsEmpty(rec) then Delete(doc, g) else Put(doc, g, rec)
  }

  /** `update`: checks, in this order, that the caller has an entry, that the
      old name is in the caller's list, and that no user of the guild lists
      the new name; then the new name takes the old one's position. */
  ghost function UpdateResult(doc: Document, g: GuildId, u: UserId, oldName: Alias, newName: Alias): Outcome
    requires WellFormed(doc)
  {
    if g !in doc.entries || u !in doc.entries[g].entries then Rejected(NoAccounts)
    else
      var rec := doc.entries[g];
      var names := rec.entries[u];
      if oldName !in names then Rejected(OldNameNotFound)
      else if Claimed(rec, newName) then Rejected(NewNameTaken)
      else Saved(Put(doc, g, Put(rec, u, names[IndexOf(names, oldName) := newName])))
  }

  // ---------------------------------------------------------------------
  // The command handlers

  /** Scans the guild's lists in document order and stops at the first one
      holding `a` (bot.py's early-return `for` loop). */
  method ScanFor(rec: Accounts, a: Alias) returns (found: bool)
    requires Valid(rec)
    ensures found <==> Claimed(rec, a)
  {
    var i := 0;
    while i < |rec.keys|
      invariant 0 <= i <= |rec.keys|
      invariant forall j :: 0 <= j < i ==> a !in rec.entries[rec.keys[j]]
    {
      if a in rec.entries[rec.keys[i]] {
        return true;
      }
      i := i + 1;
    }
    return false;
  }

  method Register(doc: Document, g: GuildId, u: UserId, a: Alias) returns (r: Outcome)
    requires WellFormed(doc)
    ensures r == RegisterResult(doc, g, u, a)
    ensures r.Saved? ==> WellFormed(r.doc)
  {
    var data := doc;
    if g !in data.entries {
      data := Put(data, g, Empty());
    }
    var accounts := data.entries[g];
    var taken := ScanFor(accounts, a);
    if taken {
      return Rejected(AlreadyRegistered);
    }
    if u !in accounts.entries {
      accounts := Put(accounts, u, []);
    }
    accounts := Put(accounts, u, accounts.entries[u] + [a]);
    ghost var rec := Guild(doc, g);
    assert accounts.entries == rec.entries[u := AliasesOf(rec, u) + [a]];
    data := Put(data, g, accounts);
    assert data.entries == doc.entries[g := accounts];
    return Saved(data);
  }

  method List(doc: Document, g: GuildId) returns (r: ListReply)
    requires WellFormed(doc)
    ensures r == Listing(doc, g)
  {
    if g !in doc.entries || IsEmpty(doc.entries[g]) {
      return NoAccountsOnServer;
    }
    var accounts := doc.entries[g];
    var lines: seq<Line> := [];
    for i := 0 to |accounts.keys|
      invariant |lines| == i
      invariant forall j :: 0 <= j < i ==>
                  lines[j] == Line(accounts.keys[j], accounts.entries[accounts.keys[j]])
    {
      var user := accounts.keys[i];
      lines := lines + [Line(user, accounts.entries[user])];
    }
    return Lines(lines);
  }

  method Remove(doc: Document, g: GuildId, u: UserId, a: Alias) returns (r: Outcome)
    requires WellFormed(doc)
    ensures r == RemoveResult(doc, g, u, a)
    ensures r.Saved? ==> WellFormed(r.doc)
  {
    if g !in doc.entries || u !in doc.entries[g].entries {
      return Rejected(NoAccounts);
    }
    var accounts := doc.entries[g];
    if a !in accounts.entries[u] {
      return Rejected(NotRegisteredByUser);
    }
    accounts := Put(accounts, u, RemoveFirst(accounts.entries[u], a));
    if accounts.entries[u] == [] {
      assert accounts.entries - {u} == doc.entries[g].entries - {u};
      accounts := Delete(accounts, u);
    }
    var data := Put(doc, g, accounts);
    if IsEmpty(data.entries[g]) {
      assert data.entries - {g} == doc.entries - {g};
      data := Delete(data, g);
    }
    return Saved(data);
  }

  method Update(doc: Document, g: GuildId, u: UserId, oldName: Alias, newName: Alias) returns (r: Outcome)
    requires WellFormed(doc)
    ensures r == UpdateResult(doc, g, u, oldName, newName)
    ensures r.Saved? ==> WellFormed(r.doc)
  {
    if g !in doc.entries || u !in doc.entries[g].entries {
      return Rejected(NoAccounts);
    }
    var accounts := doc.entries[g];
    if oldName !in accounts.entries[u] {
      return Rejected(OldNameNotFound);
    }
    var taken := ScanFor(accounts, newName);
    if taken {
      return Rejected(NewNameTaken);
    }
    var idx := IndexOf(accounts.entries[u], oldName);
    accounts := Put(accounts, u, accounts.entries[u][idx := newName]);
    return Saved(Put(doc, g, accounts));
  }
}
