/** The `info` command of bot.py: for every summoner name the caller has
    registered in this guild, in list order, parse `GameName#TagLine`, look
    the account up by Riot ID, then the summoner by PUUID, and report the
    encrypted summoner id or the first stage that failed.

    The two HTTP helpers (`get_account_info`, `get_summoner_by_puuid`) are
    parameters: any function from the request to "no data" (`None`, what a
    non-200 status gives) or a decoded JSON object. The method also returns
    the log of the provider calls it made, so that which calls happen, and
    in which order, is part of what is proved. */
module Resolution {
  import opened Lists
  import opened Optional
  import opened OrderedDict
  import opened Registry

  /** A decoded JSON object whose fields the bot reads (`puuid`, `id`). */
  type Json = map<string, string>

  /** `get_account_info(game_name, tag_line)` */
  type AccountApi = (string, string) -> Option<Json>

  /** `get_summoner_by_puuid(puuid)` */
  type SummonerApi = string -> Option<Json>

  datatype Call = AccountLookup(gameName: string, tagLine: string) | SummonerLookup(puuid: string)

  /** What the reply says about one name. `NoAccountInfo` and `NoSummonerId`
      are told apart here although the bot sends the same text for both
      ("No summoner ID found for"). */
  datatype AliasOutcome =
    | InvalidRiotId             // no `#` in the name
    | NoAccountInfo             // the account lookup gave no data
    | NoPuuid                   // the account data has no (or an empty) `puuid`
    | NoSummonerData            // the summoner lookup gave no data
    | NoSummonerId              // the summoner data has no (or an empty) `id`
    | EncryptedId(id: string)   // success

  datatype Report = Report(alias: Alias, outcome: AliasOutcome)

  datatype InfoReply = NoRegisteredAccounts | Reports(reports: seq<Report>)

  /** The outcome for one name and the provider calls made for it. */
  datatype NameResult = NameResult(outcome: AliasOutcome, calls: seq<Call>)

  /** Python truthiness of a helper's result: `None` and `{}` are both false. */
  predicate Truthy(response: Option<Json>) {
    response.Some? && response.value != map[]
  }

  /** `data.get(key)`, with a missing field read as the (equally falsy) empty string. */
  function Field(data: Json, key: string): string {
    if key in data then data[key] else ""
  }

  /** `s.split("#", 1)` on a string that holds a `#`: the part before the
      first `#` and everything after it. */
  function SplitAtHash(s: string): (parts: (string, string))
    requires '#' in s
    ensures parts.0 + "#" + parts.1 == s
    ensures '#' !in parts.0
  {
    if s[0] == '#' then ("", s[1..])
    else
      var (name, tag) := SplitAtHash(s[1..]);
      ([s[0]] + name, tag)
  }

  /** One iteration of the loop: the stages run in order and stop at the
      first that fails. */
  ghost function Resolve(alias: Alias, account: AccountApi, summoner: SummonerApi): NameResult {
    if '#' !in alias then NameResult(InvalidRiotId, [])
    else
      var (gameName, tagLine) := SplitAtHash(alias);
      var lookup := [AccountLookup(gameName, tagLine)];
      var info := account(gameName, tagLine);
      if !Truthy(info) then NameResult(NoAccountInfo, lookup)
      else if Field(info.value, "puuid") == "" then NameResult(NoPuuid, lookup)
      else
        var puuid := Field(info.value, "puuid");
        var calls := lookup + [SummonerLookup(puuid)];
        var summonerData := summoner(puuid);
        if !Truthy(summonerData) then NameResult(NoSummonerData, calls)
        else if Field(summonerData.value, "id") == "" then NameResult(NoSummonerId, calls)
        else NameResult(EncryptedId(Field(summonerData.value, "id")), calls)
  }

  /** The provider calls for a whole list of names, one name after the other. */
  ghost function AllCalls(aliases: seq<Alias>, account: AccountApi, summoner: SummonerApi): seq<Call>
    decreases |aliases|
  {
    if aliases == [] then []
    else AllCalls(aliases[..|aliases| - 1], account, summoner)
         + Resolve(aliases[|aliases| - 1], account, summoner).calls
  }

  /** `summoner_info`: refuses when the guild or the caller has no entry;
      otherwise one report per registered name, in list order, each name
      resolved on its own, and the provider calls of all names in sequence. */
  method Info(doc: Document, g: GuildId, u: UserId, account: AccountApi, summoner: SummonerApi)
    returns (reply: InfoReply, calls: seq<Call>)
    ensures reply.NoRegisteredAccounts? <==> !(g in doc.entries && u in doc.entries[g].entries)
    ensures reply.Reports? ==>
              var names := doc.entries[g].entries[u];
              && |reply.reports| == |names|
              && forall i :: 0 <= i < |names| ==>
                   reply.reports[i] == Report(names[i], Resolve(names[i], account, summoner).outcome)
    ensures calls == if reply.Reports? then AllCalls(doc.entries[g].entries[u], account, summoner) else []
  {
    if g !in doc.entries || u !in doc.entries[g].entries {
      return NoRegisteredAccounts, [];
    }
    var accounts := doc.entries[g].entries[u];
    var reports: seq<Report> := [];
    calls := [];
    for i := 0 to |accounts|
      invariant |reports| == i
      invariant forall j :: 0 <= j < i ==>
                  reports[j] == Report(accounts[j], Resolve(accounts[j], account, summoner).outcome)
      invariant calls == AllCalls(accounts[..i], account, summoner)
    {
      var name := accounts[i];
      var outcome: AliasOutcome;
      var made: seq<Call> := [];
      if '#' !in name {
        outcome := InvalidRiotId;
      } else {
        var (gameName, tagLine) := SplitAtHash(name);
        var accountInfo := account(gameName, tagLine);
        made := [AccountLookup(gameName, tagLine)];
        if !Truthy(accountInfo) {
          outcome := NoAccountInfo;
        } else {
          var puuid := Field(accountInfo.value, "puuid");
          if puuid == "" {
            outcome := NoPuuid;
          } else {
            var summonerData := summoner(puuid);
            made := made + [SummonerLookup(puuid)];
            if !Truthy(summonerData) {
              outcome := NoSummonerData;
            } else {
              var encryptedId := Field(summonerData.value, "id");
              if encryptedId == "" {
                outcome := NoSummonerId;
              } else {
                outcome := EncryptedId(encryptedId);
              }
            }
          }
        }
      }
      assert NameResult(outcome, made) == Resolve(name, account, summoner);
      reports := reports + [Report(name, outcome)];
      assert accounts[..i + 1][..i] == accounts[..i];
      calls := calls + made;
    }
    assert accounts[..|accounts|] == accounts;
    return Reports(reports), calls;
  }
}
