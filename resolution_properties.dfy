/** What the `info` loop promises for each name: the Riot-ID parse rule,
    the order in which the provider is asked, and when a name counts as
    resolved. */
module ResolutionProperties {
  import opened Lists
  import opened Optional
  import opened Resolution

  /** Splitting at the first `#` undoes writing a `#`-free game name, a `#`
      and any tag line: the tag line may itself contain `#`, the game name
      never does. */
  lemma {:induction false} SplitAtHashRoundTrip(name: string, tag: string)
    requires '#' !in name
    ensures SplitAtHash(name + "#" + tag) == (name, tag)
  {
    var s := name + "#" + tag;
    if name == [] {
      assert s[0] == '#' && s[1..] == tag;
    } else {
      assert s[0] == name[0] && name[0] != '#';
      assert s[1..] == name[1..] + "#" + tag;
      SplitAtHashRoundTrip(name[1..], tag);
      assert [name[0]] + name[1..] == name;
    }
  }

  /** The split is at the first `#` of the name. */
  lemma SplitAtHashIsAtFirstHash(s: string)
    requires '#' in s
    ensures |SplitAtHash(s).0| == IndexOf(s, '#')
  {
    var (name, tag) := SplitAtHash(s);
    var i := IndexOf(s, '#');
    assert s[|name|] == '#';
    assert forall j :: 0 <= j < |name| ==> s[j] == name[j] && s[j] != '#';
  }

  /** A name is reported invalid exactly when it has no `#`, and then the
      provider is not asked at all. */
  lemma InvalidExactlyWithoutHash(alias: string, account: AccountApi, summoner: SummonerApi)
    ensures Resolve(alias, account, summoner).outcome == InvalidRiotId <==> '#' !in alias
    ensures '#' !in alias ==> Resolve(alias, account, summoner).calls == []
  {
  }

  /** A name with a `#` is looked up by account first, with the two halves
      of the split; at most two calls are made for it. */
  lemma AccountLookupComesFirst(alias: string, account: AccountApi, summoner: SummonerApi)
    requires '#' in alias
    ensures var calls := Resolve(alias, account, summoner).calls;
      && 1 <= |calls| <= 2
      && calls[0] == AccountLookup(SplitAtHash(alias).0, SplitAtHash(alias).1)
  {
  }

  /** The summoner lookup happens exactly when the account lookup gave data
      with a non-empty `puuid`, and it is asked for that `puuid`. */
  lemma SummonerLookupNeedsPuuid(alias: string, account: AccountApi, summoner: SummonerApi)
    requires '#' in alias
    ensures var (gameName, tagLine) := SplitAtHash(alias);
      var info := account(gameName, tagLine);
      var calls := Resolve(alias, account, summoner).calls;
      && (|calls| == 2 <==> Truthy(info) && Field(info.value, "puuid") != "")
      && (|calls| == 2 ==> calls[1] == SummonerLookup(Field(info.value, "puuid")))
  {
  }

  /** A name is resolved exactly when every stage gave data: the account
      data a non-empty `puuid`, and the summoner data for that `puuid` a
      non-empty `id`, which is the id reported. */
  lemma ResolvedExactlyWhenEveryStagePasses(alias: string, account: AccountApi, summoner: SummonerApi)
    ensures Resolve(alias, account, summoner).outcome.EncryptedId? <==>
              && '#' in alias
              && var (gameName, tagLine) := SplitAtHash(alias);
              var info := account(gameName, tagLine);
              && Truthy(info) && Field(info.value, "puuid") != ""
              && var summonerData := summoner(Field(info.value, "puuid"));
              && Truthy(summonerData) && Field(summonerData.value, "id") != ""
    ensures Resolve(alias, account, summoner).outcome.EncryptedId? ==>
              Resolve(alias, account, summoner).outcome.id != ""
  {
  }

  /** Each failure is reported at the first stage that fails, and only
      there: no account data, then no `puuid` in it, then no summoner data
      for that `puuid`, then no `id` in it. */
  lemma FailureAtFirstFailingStage(alias: string, account: AccountApi, summoner: SummonerApi)
    requires '#' in alias
    ensures var (gameName, tagLine) := SplitAtHash(alias);
      var info := account(gameName, tagLine);
      var outcome := Resolve(alias, account, summoner).outcome;
      && (outcome == NoAccountInfo <==> !Truthy(info))
      && (outcome == NoPuuid <==> Truthy(info) && Field(info.value, "puuid") == "")
      && (outcome == NoSummonerData <==>
            && Truthy(info) && Field(info.value, "puuid") != ""
            && !Truthy(summoner(Field(info.value, "puuid"))))
      && (outcome == NoSummonerId <==>
            && Truthy(info) && Field(info.value, "puuid") != ""
            && var summonerData := summoner(Field(info.value, "puuid"));
            && Truthy(summonerData) && Field(summonerData.value, "id") == "")
  {
  }

  /** A name without `#`: refused at parse, no provider call, whatever the
      provider would answer. */
  lemma ScenarioNoHash(account: AccountApi, summoner: SummonerApi)
    ensures Resolve("NoHash", account, summoner) == NameResult(InvalidRiotId, [])
  {
  }

  /** An account lookup that fails (a 404 reaches the bot as `None`) stops
      the name at the first stage; the summoner endpoint is never called. */
  lemma ScenarioAccountNotFound(account: AccountApi, summoner: SummonerApi)
    requires account("Name", "Tag") == None
    ensures Resolve("Name#Tag", account, summoner) == NameResult(NoAccountInfo, [AccountLookup("Name", "Tag")])
  {
    assert "Name#Tag" == "Name" + "#" + "Tag";
    SplitAtHashRoundTrip("Name", "Tag");
  }
}
