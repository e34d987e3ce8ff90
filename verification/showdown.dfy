/** What the Pokémon Showdown replay clients share: the replay server's address,
    the JSON objects it answers with, and the Python exceptions the parsing code
    can raise on unexpected input. */
module Showdown {
  import opened Wrappers

  /** `IndexError` from indexing a too-short `split` result, `KeyError` from a
      missing dictionary key, `TypeError` from subscripting `None`. */
  datatype PyError = IndexError | KeyError | TypeError

  const BaseUrl: string := "https://replay.pokemonshowdown.com/"

  /** A JSON object as the clients read it: the string-valued fields by name. */
  type Json = map<string, string>

  /** `item["id"]`. */
  function IdOf(item: Json): (r: Result<string, PyError>)
    ensures r.Success? <==> "id" in item
    ensures r.Success? ==> r.value == item["id"]
    ensures r.Failure? ==> r.error == KeyError
  {
    if "id" in item then Success(item["id"]) else Failure(KeyError)
  }

  /** `[item["id"] for item in replay_list]`: the replay ids in search order,
      or a KeyError when some item has no id. */
  function ReplayIds(items: seq<Json>): (r: Result<seq<string>, PyError>)
    ensures r.Success? <==> forall k :: 0 <= k < |items| ==> "id" in items[k]
    ensures r.Success? ==> |r.value| == |items| && forall k :: 0 <= k < |items| ==> r.value[k] == items[k]["id"]
    ensures r.Failure? ==> r.error == KeyError
  {
    var r := MapAll(items, IdOf);
    assert r.Failure? ==> r.error == KeyError by {
      if r.Failure? {
        var k :| 0 <= k < |items| && IdOf(items[k]) == Failure(r.error);
      }
    }
    r
  }

  /** `f"{base_url}{replay_id}.json"`: the address of one replay's JSON. */
  function ReplayUrl(id: string): (url: string)
    ensures |url| == |BaseUrl| + |id| + 5
    ensures url[..|BaseUrl|] == BaseUrl && url[|BaseUrl|..|BaseUrl| + |id|] == id
    ensures url[|BaseUrl| + |id|..] == ".json"
  {
    BaseUrl + id + ".json"
  }

  /** Distinct ids have distinct addresses, so every fetch asks for one replay. */
  lemma ReplayUrlInjective(a: string, b: string)
    ensures ReplayUrl(a) == ReplayUrl(b) <==> a == b
  {
    if ReplayUrl(a) == ReplayUrl(b) {
      assert |a| == |b|;
      assert a == ReplayUrl(a)[|BaseUrl|..|BaseUrl| + |a|];
    }
  }
}
