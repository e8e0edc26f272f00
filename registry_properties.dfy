/** What the registry commands promise, stated over their specification
    functions: which requests are refused, what a saved document looks like,
    and that the registry invariant (one owner per name in a guild, no empty
    user list, no empty guild record) survives any sequence of commands. */
module RegistryProperties {
  import opened Lists
  import opened OrderedDict
  import opened Registry

  // ---------------------------------------------------------------------
  // register

  /** Register refuses exactly when some user of the guild, the caller
      included, already lists the name. */
  lemma RegisterRefusesClaimed(doc: Document, g: GuildId, u: UserId, a: Alias)
    requires WellFormed(doc)
    ensures RegisterResult(doc, g, u, a).Rejected? <==> Claimed(Guild(doc, g), a)
    ensures RegisterResult(doc, g, u, a).Rejected? ==>
              RegisterResult(doc, g, u, a).error == AlreadyRegistered
    ensures a in AliasesOf(Guild(doc, g), u) ==>
              RegisterResult(doc, g, u, a) == Rejected(AlreadyRegistered)
  {
    if a in AliasesOf(Guild(doc, g), u) {
      assert u in Guild(doc, g).entries && a in Guild(doc, g).entries[u];
    }
  }

  /** A saved registration appends the name to the caller's list, creating
      the guild record or the user entry (each goes last in its key order)
      when missing; every other user's list and every other guild stay as
      they were. */
  lemma RegisterAppends(doc: Document, g: GuildId, u: UserId, a: Alias)
    requires WellFormed(doc)
    requires RegisterResult(doc, g, u, a).Saved?
    ensures var d' := RegisterResult(doc, g, u, a).doc;
      && WellFormed(d')
      && g in d'.entries && u in d'.entries[g].entries
      && d'.entries[g].entries[u] == AliasesOf(Guild(doc, g), u) + [a]
      && (forall v :: v != u ==> AliasesOf(d'.entries[g], v) == AliasesOf(Guild(doc, g), v))
      && (forall h :: h != g ==> Guild(d', h) == Guild(doc, h))
      && d'.keys == (if g in doc.entries then doc.keys else doc.keys + [g])
      && d'.entries[g].keys == (if u in Guild(doc, g).entries then Guild(doc, g).keys
                                else Guild(doc, g).keys + [u])
  {
  }

  /** Register keeps the registry invariant. */
  lemma RegisterKeepsInvariant(doc: Document, g: GuildId, u: UserId, a: Alias)
    requires Invariant(doc)
    requires RegisterResult(doc, g, u, a).Saved?
    ensures Invariant(RegisterResult(doc, g, u, a).doc)
  {
    var rec := Guild(doc, g);
    var names := AliasesOf(rec, u) + [a];
    var rec' := Put(rec, u, names);
    assert !Claimed(rec, a);
    assert NoDup(rec'.entries[u]) by {
      assert NoDup(AliasesOf(rec, u));
      assert a !in AliasesOf(rec, u);
    }
    forall u1, u2, b | u1 in rec'.entries && u2 in rec'.entries &&
                       b in rec'.entries[u1] && b in rec'.entries[u2]
      ensures u1 == u2
    {
      if u1 != u && u2 != u {
      } else if b == a {
        assert u1 == u && u2 == u;
      } else {
        assert b in rec.entries[u1] && b in rec.entries[u2];
      }
    }
    assert UniqueAliases(rec');
    assert NoEmptyEntries(rec');
  }

  // ---------------------------------------------------------------------
  // list

  /** List reports "no accounts" exactly when the guild has no record or an
      empty one; otherwise it gives one line per user key, in key order, each
      user once, with that user's list. */
  lemma ListingOneLinePerUser(doc: Document, g: GuildId)
    requires WellFormed(doc)
    ensures Listing(doc, g).NoAccountsOnServer? <==>
              g !in doc.entries || doc.entries[g].entries == map[]
    ensures Listing(doc, g).Lines? ==>
              var rec := doc.entries[g];
              var lines := Listing(doc, g).lines;
              && |lines| == |rec.keys|
              && (forall i :: 0 <= i < |lines| ==> lines[i].user == rec.keys[i])
              && (forall i, j :: 0 <= i < j < |lines| ==> lines[i].user != lines[j].user)
              && (forall v :: v in rec.entries <==> exists i :: 0 <= i < |lines| && lines[i].user == v)
              && (forall i :: 0 <= i < |lines| ==> lines[i].aliases == rec.entries[lines[i].user])
  {
    if g in doc.entries {
      EmptyIffNoEntries(doc.entries[g]);
      var rec := doc.entries[g];
      if Listing(doc, g).Lines? {
        var lines := Listing(doc, g).lines;
        forall v | v in rec.entries
          ensures exists i :: 0 <= i < |lines| && lines[i].user == v
        {
          var i := IndexOf(rec.keys, v);
          assert lines[i].user == v;
        }
      }
    }
  }

  // ---------------------------------------------------------------------
  // remove

  /** Remove refuses with "no accounts" when the guild or the caller has no
      entry, and with "not registered under your user" when the caller's own
      list lacks the name; it saves exactly when the caller's list holds it. */
  lemma RemoveRefusals(doc: Document, g: GuildId, u: UserId, a: Alias)
    requires WellFormed(doc)
    ensures (g !in doc.entries || u !in doc.entries[g].entries) ==>
              RemoveResult(doc, g, u, a) == Rejected(NoAccounts)
    ensures (g in doc.entries && u in doc.entries[g].entries && a !in doc.entries[g].entries[u]) ==>
              RemoveResult(doc, g, u, a) == Rejected(NotRegisteredByUser)
    ensures RemoveResult(doc, g, u, a).Saved? <==> a in AliasesOf(Guild(doc, g), u)
  {
  }

  /** No user can remove or rename a name that another user of the guild
      holds: the request is refused and nothing is written. */
  lemma OthersNamesAreProtected(doc: Document, g: GuildId, u: UserId, owner: UserId, a: Alias, n: Alias)
    requires Invariant(doc)
    requires g in doc.entries && owner in doc.entries[g].entries && a in doc.entries[g].entries[owner]
    requires u != owner
    ensures RemoveResult(doc, g, u, a).Rejected?
    ensures UpdateResult(doc, g, u, a, n).Rejected?
  {
    assert UniqueAliases(doc.entries[g]);
  }

  /** At the record level: once the caller's list has become `rest`, the
      caller has exactly `rest` (and no key when it is empty), nobody else
      changes, and the record is empty exactly when no entry is left. */
  lemma WithListFacts(rec: Accounts, u: UserId, rest: seq<Alias>)
    requires Valid(rec) && u in rec.entries
    ensures var rec' := WithList(rec, u, rest);
      && Valid(rec')
      && AliasesOf(rec', u) == rest
      && (u in rec'.entries <==> rest != [])
      && (forall v :: v in rec'.entries ==> v in rec.entries)
      && (forall v :: v != u ==> AliasesOf(rec', v) == AliasesOf(rec, v))
      && (!IsEmpty(rec') <==> exists v :: v in rec.entries && (v != u || rest != []))
  {
    var rec' := WithList(rec, u, rest);
    EmptyIffNoEntries(rec');
    if IsEmpty(rec') {
      forall v | v in rec.entries ensures v == u && rest == [] {
        assert v !in rec'.entries;
      }
    } else {
      var v := rec'.keys[0];
      assert v in rec.entries && (v != u || rest != []);
    }
  }

  /** Storing the list back keeps the record's key order; deleting the
      user key removes it from the order and leaves the others in order. */
  lemma WithListKeyOrder(rec: Accounts, u: UserId, rest: seq<Alias>)
    requires Valid(rec) && u in rec.entries
    ensures WithList(rec, u, rest).keys == if rest == [] then RemoveFirst(rec.keys, u) else rec.keys
  {
    RemoveFirstSplices(rec.keys, u);
  }

  /** At the document level: once the guild's record has become `rec`, the
      guild has exactly `rec` (and no key when it is empty) and no other
      guild changes. */
  lemma WithRecordFacts(doc: Document, g: GuildId, rec: Accounts)
    requires WellFormed(doc) && g in doc.entries && Valid(rec)
    ensures var d' := WithRecord(doc, g, rec);
      && WellFormed(d')
      && (g in d'.entries <==> !IsEmpty(rec))
      && (g in d'.entries ==> d'.entries[g] == rec)
      && (forall h :: h in d'.entries ==> h in doc.entries)
      && (forall h :: h != g ==> Guild(d', h) == Guild(doc, h))
      && d'.keys == if IsEmpty(rec) then RemoveFirst(doc.keys, g) else doc.keys
  {
    RemoveFirstSplices(doc.keys, g);
  }

  /** A saved removal deletes the name from the caller's list (the first
      occurrence, which in a duplicate-free list is the only one), deletes
      the user entry when the list became empty and the guild record when
      that became empty, and touches nothing else: the caller's other names,
      the other users and the other guilds keep their order, and a deleted
      key leaves the others in order. So it never leaves an empty list or an
      empty record behind for that user and guild. */
  lemma RemoveDeletes(doc: Document, g: GuildId, u: UserId, a: Alias)
    requires WellFormed(doc)
    requires RemoveResult(doc, g, u, a).Saved?
    ensures var d' := RemoveResult(doc, g, u, a).doc;
      var rest := RemoveFirst(doc.entries[g].entries[u], a);
      && WellFormed(d')
      && AliasesOf(Guild(d', g), u) == rest
      && (u in Guild(d', g).entries <==> rest != [])
      && (g in d'.entries ==> !IsEmpty(d'.entries[g]))
      && (g in d'.entries <==> exists v :: v in doc.entries[g].entries && (v != u || rest != []))
      && (forall v :: v != u ==> AliasesOf(Guild(d', g), v) == AliasesOf(doc.entries[g], v))
      && (forall h :: h != g ==> Guild(d', h) == Guild(doc, h))
      && (NoDup(doc.entries[g].entries[u]) ==> a !in AliasesOf(Guild(d', g), u))
      && var names := doc.entries[g].entries[u];
      rest == names[..IndexOf(names, a)] + names[IndexOf(names, a) + 1..]
  {
    RemoveFirstSplices(doc.entries[g].entries[u], a);
    var rec := doc.entries[g];
    var rest := RemoveFirst(rec.entries[u], a);
    if NoDup(rec.entries[u]) {
      RemoveFirstNoDup(rec.entries[u], a);
    }
    var rec' := WithList(rec, u, rest);
    WithListFacts(rec, u, rest);
    WithRecordFacts(doc, g, rec');
    var d' := WithRecord(doc, g, rec');
    assert RemoveResult(doc, g, u, a).doc == d';
    if IsEmpty(rec') {
      EmptyIffNoEntries(rec');
      assert Guild(d', g) == Empty();
    } else {
      assert Guild(d', g) == rec';
    }
  }

  /** A saved removal changes no key order except by the key it deletes:
      the guild's users stay in order, losing the caller only when the
      caller's list emptied, and the guilds stay in order, losing this one
      only when its record emptied. */
  lemma RemoveKeepsKeyOrder(doc: Document, g: GuildId, u: UserId, a: Alias)
    requires WellFormed(doc)
    requires RemoveResult(doc, g, u, a).Saved?
    ensures var d' := RemoveResult(doc, g, u, a).doc;
      && Guild(d', g).keys == (if u in Guild(d', g).entries then doc.entries[g].keys
                               else RemoveFirst(doc.entries[g].keys, u))
      && d'.keys == if g in d'.entries then doc.keys else RemoveFirst(doc.keys, g)
  {
    var rec := doc.entries[g];
    var rest := RemoveFirst(rec.entries[u], a);
    var rec' := WithList(rec, u, rest);
    WithListFacts(rec, u, rest);
    WithListKeyOrder(rec, u, rest);
    WithRecordFacts(doc, g, rec');
    var d' := WithRecord(doc, g, rec');
    assert RemoveResult(doc, g, u, a).doc == d';
    if IsEmpty(rec') {
      EmptyIffNoEntries(rec');
      assert Guild(d', g) == Empty();
    } else {
      assert Guild(d', g) == rec';
    }
  }

  /** Narrowing one user's list to a duplicate-free part of it, and pruning
      it when empty, keeps a record's I1 and I2. */
  lemma WithListKeepsInvariant(rec: Accounts, u: UserId, rest: seq<Alias>)
    requires Valid(rec) && UniqueAliases(rec)
    requires forall v :: v in rec.entries ==> rec.entries[v] != []
    requires u in rec.entries
    requires NoDup(rest) && forall b :: b in rest ==> b in rec.entries[u]
    ensures var rec' := WithList(rec, u, rest);
      && UniqueAliases(rec')
      && forall v :: v in rec'.entries ==> rec'.entries[v] != []
  {
    var rec' := WithList(rec, u, rest);
    WithListFacts(rec, u, rest);
    assert forall v :: v in rec'.entries ==> rec'.entries[v] == rec.entries[v] || (v == u && rec'.entries[v] == rest);
  }

  /** Remove keeps the registry invariant. */
  lemma RemoveKeepsInvariant(doc: Document, g: GuildId, u: UserId, a: Alias)
    requires Invariant(doc)
    requires RemoveResult(doc, g, u, a).Saved?
    ensures Invariant(RemoveResult(doc, g, u, a).doc)
  {
    var rec := doc.entries[g];
    var rest := RemoveFirst(rec.entries[u], a);
    RemoveFirstNoDup(rec.entries[u], a);
    var rec' := WithList(rec, u, rest);
    WithListKeepsInvariant(rec, u, rest);
    WithListFacts(rec, u, rest);
    WithRecordFacts(doc, g, rec');
    var d' := WithRecord(doc, g, rec');
    assert RemoveResult(doc, g, u, a).doc == d';
    forall h | h in d'.entries
      ensures UniqueAliases(d'.entries[h]) && NoEmptyEntries(d'.entries[h])
    {
      if h != g {
        assert Guild(d', h) == Guild(doc, h);
      }
    }
  }

  // ---------------------------------------------------------------------
  // update

  /** Update checks its refusals in this order: no accounts, then the old
      name missing from the caller's list, then the new name already listed
      by any user of the guild, which covers renaming a name to itself and
      to another of the caller's own names. */
  lemma UpdateRefusalOrder(doc: Document, g: GuildId, u: UserId, oldName: Alias, newName: Alias)
    requires WellFormed(doc)
    ensures (g !in doc.entries || u !in doc.entries[g].entries) ==>
              UpdateResult(doc, g, u, oldName, newName) == Rejected(NoAccounts)
    ensures (g in doc.entries && u in doc.entries[g].entries && oldName !in doc.entries[g].entries[u]) ==>
              UpdateResult(doc, g, u, oldName, newName) == Rejected(OldNameNotFound)
    ensures (oldName in AliasesOf(Guild(doc, g), u) && Claimed(Guild(doc, g), newName)) ==>
              UpdateResult(doc, g, u, oldName, newName) == Rejected(NewNameTaken)
    ensures (oldName in AliasesOf(Guild(doc, g), u) && (newName == oldName || newName in AliasesOf(Guild(doc, g), u))) ==>
              UpdateResult(doc, g, u, oldName, newName) == Rejected(NewNameTaken)
    ensures UpdateResult(doc, g, u, oldName, newName).Saved? <==>
              oldName in AliasesOf(Guild(doc, g), u) && !Claimed(Guild(doc, g), newName)
  {
    if oldName in AliasesOf(Guild(doc, g), u) && (newName == oldName || newName in AliasesOf(Guild(doc, g), u)) {
      assert newName in Guild(doc, g).entries[u];
    }
  }

  /** A saved update writes the new name at the old name's (first) index:
      the list keeps its length and every other position; the key orders,
      the other users' lists and the other guilds are unchanged. */
  lemma UpdateKeepsPosition(doc: Document, g: GuildId, u: UserId, oldName: Alias, newName: Alias)
    requires WellFormed(doc)
    requires UpdateResult(doc, g, u, oldName, newName).Saved?
    ensures var d' := UpdateResult(doc, g, u, oldName, newName).doc;
      var names := doc.entries[g].entries[u];
      var idx := IndexOf(names, oldName);
      && WellFormed(d')
      && g in d'.entries && u in d'.entries[g].entries
      && |d'.entries[g].entries[u]| == |names|
      && d'.entries[g].entries[u][idx] == newName
      && (forall j :: 0 <= j < |names| && j != idx ==> d'.entries[g].entries[u][j] == names[j])
      && d'.keys == doc.keys && d'.entries[g].keys == doc.entries[g].keys
      && (forall v :: v != u ==> AliasesOf(d'.entries[g], v) == AliasesOf(doc.entries[g], v))
      && (forall h :: h != g ==> Guild(d', h) == Guild(doc, h))
      && (NoDup(names) ==> oldName !in d'.entries[g].entries[u])
  {
    var names := doc.entries[g].entries[u];
    var idx := IndexOf(names, oldName);
    var names' := names[idx := newName];
    if NoDup(names) {
      forall j | 0 <= j < |names'| ensures names'[j] != oldName {
        if j != idx { assert names[j] != names[idx]; }
        else {
          assert newName != oldName by {
            assert Claimed(doc.entries[g], oldName) by {
              assert oldName in doc.entries[g].entries[u];
            }
          }
        }
      }
    }
  }

  /** Update keeps the registry invariant. */
  lemma UpdateKeepsInvariant(doc: Document, g: GuildId, u: UserId, oldName: Alias, newName: Alias)
    requires Invariant(doc)
    requires UpdateResult(doc, g, u, oldName, newName).Saved?
    ensures Invariant(UpdateResult(doc, g, u, oldName, newName).doc)
  {
    var rec := doc.entries[g];
    var names := rec.entries[u];
    var idx := IndexOf(names, oldName);
    var rec' := Put(rec, u, names[idx := newName]);
    assert !Claimed(rec, newName);
    assert newName !in names;
    ReplaceKeeps(names, idx, newName);
    forall u1, u2, b | u1 in rec'.entries && u2 in rec'.entries &&
                       b in rec'.entries[u1] && b in rec'.entries[u2]
      ensures u1 == u2
    {
      if u1 != u && u2 != u {
      } else if b == newName {
        assert u1 == u && u2 == u;
      } else {
        assert b in rec.entries[u1] && b in rec.entries[u2];
      }
    }
    assert UniqueAliases(rec');
    assert NoEmptyEntries(rec');
  }

  // ---------------------------------------------------------------------
  // Any sequence of commands

  /** A command as it arrives from the chat: which guild, which caller, which names. */
  datatype Command =
    | RegisterCmd(g: GuildId, u: UserId, a: Alias)
    | RemoveCmd(g: GuildId, u: UserId, a: Alias)
    | UpdateCmd(g: GuildId, u: UserId, oldName: Alias, newName: Alias)
    | ListCmd(g: GuildId)

  /** The document after one command: the saved document, or the same one
      when the command was refused or only reads. */
  ghost function Step(doc: Document, c: Command): (d': Document)
    requires WellFormed(doc)
    ensures WellFormed(d')
  {
    match c
    case RegisterCmd(g, u, a) => Stored(doc, RegisterResult(doc, g, u, a))
    case RemoveCmd(g, u, a) => Stored(doc, RemoveResult(doc, g, u, a))
    case UpdateCmd(g, u, o, n) => Stored(doc, UpdateResult(doc, g, u, o, n))
    case ListCmd(_) => doc
  }

  /** What is on file after a handler: its saved document, or the old one. */
  function Stored(doc: Document, r: Outcome): Document {
    if r.Saved? then r.doc else doc
  }

  /** The stored document after a whole history of commands. */
  ghost function Replay(doc: Document, cs: seq<Command>): (d': Document)
    requires WellFormed(doc)
    ensures WellFormed(d')
    decreases |cs|
  {
    if cs == [] then doc else Replay(Step(doc, cs[0]), cs[1..])
  }

  /** One command keeps the registry invariant. */
  lemma StepKeepsInvariant(doc: Document, c: Command)
    requires Invariant(doc)
    ensures Invariant(Step(doc, c))
  {
    match c
    case RegisterCmd(g, u, a) =>
      if RegisterResult(doc, g, u, a).Saved? { RegisterKeepsInvariant(doc, g, u, a); }
    case RemoveCmd(g, u, a) =>
      if RemoveResult(doc, g, u, a).Saved? { RemoveKeepsInvariant(doc, g, u, a); }
    case UpdateCmd(g, u, o, n) =>
      if UpdateResult(doc, g, u, o, n).Saved? { UpdateKeepsInvariant(doc, g, u, o, n); }
    case ListCmd(_) =>
  }

  /** Starting from the empty store (an absent file) or any document that
      satisfies it, no history of commands breaks the registry invariant: in
      particular no name is ever listed under two users of one guild. */
  lemma {:induction false} ReplayKeepsInvariant(doc: Document, cs: seq<Command>)
    requires Invariant(doc)
    ensures Invariant(Replay(doc, cs))
    decreases |cs|
  {
    if cs != [] {
      StepKeepsInvariant(doc, cs[0]);
      ReplayKeepsInvariant(Step(doc, cs[0]), cs[1..]);
    }
  }

  lemma EmptyDocumentSatisfiesInvariant()
    ensures Invariant(Empty<Accounts>())
  {
  }

  /** Guild "1" after user "10" registered `Foo#EUW`. */
  const FooDoc: Document := Dict(["1"], map["1" := Dict(["10"], map["10" := ["Foo#EUW"]])])

  /** Guild "1" after that name was renamed to `Bar#EUW`. */
  const BarDoc: Document := Dict(["1"], map["1" := Dict(["10"], map["10" := ["Bar#EUW"]])])

  /** From a missing file: the first registration creates guild and user,
      `list` shows that one line, and a second user's claim to the same name
      is refused. */
  lemma ScenarioFirstRegistration()
    ensures RegisterResult(Empty(), "1", "10", "Foo#EUW") == Saved(FooDoc)
    ensures Listing(FooDoc, "1") == Lines([Line("10", ["Foo#EUW"])])
    ensures RegisterResult(FooDoc, "1", "20", "Foo#EUW") == Rejected(AlreadyRegistered)
  {
    var rec1 := Dict(["10"], map["10" := ["Foo#EUW"]]);
    assert !Claimed(Empty(), "Foo#EUW");
    assert AliasesOf(Empty(), "10") + ["Foo#EUW"] == ["Foo#EUW"];
    assert Put(Empty(), "10", ["Foo#EUW"]) == rec1;
    assert Put(Empty(), "1", rec1) == FooDoc;
    assert Claimed(FooDoc.entries["1"], "Foo#EUW");
  }

  /** Renaming the only name keeps its place and shows in `list`. */
  lemma ScenarioRename()
    ensures UpdateResult(FooDoc, "1", "10", "Foo#EUW", "Bar#EUW") == Saved(BarDoc)
    ensures Listing(BarDoc, "1") == Lines([Line("10", ["Bar#EUW"])])
  {
    var rec1 := FooDoc.entries["1"];
    var rec2 := Dict(["10"], map["10" := ["Bar#EUW"]]);
    assert !Claimed(rec1, "Bar#EUW");
    assert IndexOf(["Foo#EUW"], "Foo#EUW") == 0;
    assert ["Foo#EUW"][0 := "Bar#EUW"] == ["Bar#EUW"];
    assert Put(rec1, "10", ["Bar#EUW"]) == rec2;
    assert Put(FooDoc, "1", rec2) == BarDoc;
  }

  /** Removing the last name of the last user deletes the guild key, and
      `list` then says there are no accounts. */
  lemma ScenarioRemoveLast()
    ensures var r := RemoveResult(BarDoc, "1", "10", "Bar#EUW");
      && r.Saved?
      && "1" !in r.doc.entries
      && Listing(r.doc, "1") == NoAccountsOnServer
  {
    assert RemoveFirst(["Bar#EUW"], "Bar#EUW") == [];
  }
}
