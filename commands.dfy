/** The command handlers of bot.py around the registry: each one loads the
    whole `registered_accounts.json` document, runs one registry operation
    on it and, only when that operation succeeded, writes the whole new
    document back. */
module Commands {
  import opened Optional
  import opened OrderedDict
  import opened Registry
  import opened Resolution

  /** The data file. `None` is a file that does not exist yet. */
  class Store {
    var file: Option<Document>

    ghost predicate Valid()
      reads this
    {
      file.Some? ==> WellFormed(file.value)
    }

    constructor (initial: Option<Document>)
      requires initial.Some? ==> WellFormed(initial.value)
      ensures Valid() && file == initial
    {
      file := initial;
    }

    /** What `load_data` returns: the stored document, or `{}` when there is no file. */
    function Contents(): (doc: Document)
      reads this
      requires Valid()
      ensures WellFormed(doc)
      ensures file.None? ==> doc.entries == map[]
    {
      if file.None? then Empty() else file.value
    }

    method Load() returns (doc: Document)
      requires Valid()
      ensures doc == Contents()
    {
      doc := Contents();
    }

    /** `save_data`: the whole document replaces the file. */
    method Save(doc: Document)
      requires WellFormed(doc)
      modifies this
      ensures Valid() && file == Some(doc)
    {
      file := Some(doc);
    }

    /** `!register`: the file changes only when the registration succeeded. */
    method RegisterAccount(g: GuildId, u: UserId, a: Alias) returns (r: Outcome)
      requires Valid()
      modifies this
      ensures Valid()
      ensures r == RegisterResult(old(Contents()), g, u, a)
      ensures file == if r.Saved? then Some(r.doc) else old(file)
    {
      var data := Load();
      r := Register(data, g, u, a);
      if r.Saved? {
        Save(r.doc);
      }
    }

    /** `!list`: reads the file and never writes it. */
    method ListAccounts(g: GuildId) returns (r: ListReply)
      requires Valid()
      ensures r == Listing(Contents(), g)
    {
      var data := Load();
      r := List(data, g);
    }

    /** `!remove`: the file changes only when the removal succeeded. */
    method RemoveAccount(g: GuildId, u: UserId, a: Alias) returns (r: Outcome)
      requires Valid()
      modifies this
      ensures Valid()
      ensures r == RemoveResult(old(Contents()), g, u, a)
      ensures file == if r.Saved? then Some(r.doc) else old(file)
    {
      var data := Load();
      r := Remove(data, g, u, a);
      if r.Saved? {
        Save(r.doc);
      }
    }

    /** `!update`: the file changes only when the rename succeeded. */
    method UpdateAccount(g: GuildId, u: UserId, oldName: Alias, newName: Alias) returns (r: Outcome)
      requires Valid()
      modifies this
      ensures Valid()
      ensures r == UpdateResult(old(Contents()), g, u, oldName, newName)
      ensures file == if r.Saved? then Some(r.doc) else old(file)
    {
      var data := Load();
      r := Update(data, g, u, oldName, newName);
      if r.Saved? {
        Save(r.doc);
      }
    }

    /** `!info`: reads the file, asks the provider, never writes the file. */
    method SummonerInfo(g: GuildId, u: UserId, account: AccountApi, summoner: SummonerApi)
      returns (reply: InfoReply, calls: seq<Call>)
      requires Valid()
      ensures reply.NoRegisteredAccounts? <==> !(g in Contents().entries && u in Contents().entries[g].entries)
      ensures reply.Reports? ==>
                var names := Contents().entries[g].entries[u];
                && |reply.reports| == |names|
                && forall i :: 0 <= i < |names| ==>
                     reply.reports[i] == Report(names[i], Resolve(names[i], account, summoner).outcome)
      ensures calls == if reply.Reports? then AllCalls(Contents().entries[g].entries[u], account, summoner) else []
    {
      var data := Load();
      reply, calls := Info(data, g, u, account, summoner);
    }
  }
}
