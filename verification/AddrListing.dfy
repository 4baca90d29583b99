/**
What a list of addresses handed out to a peer must be.
*/
module AddrListing {
  import opened Options
  import opened AddrState

  // Which entries may be handed out.
  datatype Query = Query(network: Option<Network>, filtered: bool, now: int) {
    predicate Wants(env: Env, i: Info) {
      && (network.Some? ==> env.NetClass(i.service) == network.value)
      && !(filtered && i.stats.IsTerrible(now))
    }
  }

  function Shown(i: Info): Address {
    Address(i.service, i.stats.services, i.stats.time)
  }

  // At most how many addresses: a percentage of those known, capped; zero means no limit.
  function Limit(known: nat, maxAddresses: nat, maxPct: nat): nat {
    var share := if maxPct != 0 then (if maxPct < 100 then maxPct else 100) * known / 100 else known;
    if maxAddresses != 0 && maxAddresses < share then maxAddresses else share
  }

  // The addresses are those of different wanted entries, listed in `picked`.
  ghost predicate Picked(env: Env, infos: Infos, q: Query, picked: seq<nat>, addresses: seq<Address>) {
    && |picked| == |addresses|
    && (forall i, j | 0 <= i < j < |picked| :: picked[i] != picked[j])
    && (forall i | 0 <= i < |picked| ::
          picked[i] in infos && q.Wants(env, infos[picked[i]]) && addresses[i] == Shown(infos[picked[i]]))
  }

  // Among the first n ids of the list, exactly the wanted ones are picked.
  ghost predicate PickedFrom(env: Env, infos: Infos, q: Query, random: seq<nat>, n: nat, picked: seq<nat>)
    requires n <= |random|
  {
    && (forall i | 0 <= i < |picked| :: picked[i] in random[..n])
    && (forall i | 0 <= i < n :: random[i] in infos && (q.Wants(env, infos[random[i]]) ==> random[i] in picked))
  }

  lemma PickedSnoc(env: Env, infos: Infos, q: Query, picked: seq<nat>, addresses: seq<Address>, id: nat)
    requires Picked(env, infos, q, picked, addresses) && id in infos && id !in picked && q.Wants(env, infos[id])
    ensures Picked(env, infos, q, picked + [id], addresses + [Shown(infos[id])])
  {
  }

  lemma PickedFromSnoc(env: Env, infos: Infos, q: Query, random: seq<nat>, n: nat, picked: seq<nat>, picked': seq<nat>)
    requires n < |random| && PickedFrom(env, infos, q, random, n, picked) && random[n] in infos
    requires picked' == if q.Wants(env, infos[random[n]]) then picked + [random[n]] else picked
    ensures PickedFrom(env, infos, q, random, n + 1, picked')
  {
    assert random[..n + 1] == random[..n] + [random[n]];
    assert forall id | id in picked :: id in picked';
    forall i | 0 <= i < |picked'| ensures picked'[i] in random[..n + 1] {
      if i < |picked| {
        assert picked[i] in random[..n];
      }
    }
  }

  // One more id looked at.
  lemma PickMore(env: Env, infos: Infos, q: Query, random: seq<nat>, n: nat, picked: seq<nat>, addresses: seq<Address>)
    requires n < |random| && Picked(env, infos, q, picked, addresses) && PickedFrom(env, infos, q, random, n, picked)
    requires random[n] in infos && random[n] !in random[..n]
    ensures PickedFrom(env, infos, q, random, n + 1,
                       if q.Wants(env, infos[random[n]]) then picked + [random[n]] else picked)
    ensures q.Wants(env, infos[random[n]]) ==>
              Picked(env, infos, q, picked + [random[n]], addresses + [Shown(infos[random[n]])])
  {
    hide Picked, Query.Wants;
    PickedFromSnoc(env, infos, q, random, n, picked,
                   if q.Wants(env, infos[random[n]]) then picked + [random[n]] else picked);
    if q.Wants(env, infos[random[n]]) {
      assert random[n] !in picked;
      PickedSnoc(env, infos, q, picked, addresses, random[n]);
    }
  }

  // Swapping positions from n on leaves what was picked before n as it was.
  lemma PickKept(env: Env, infos: Infos, q: Query, random: seq<nat>, random': seq<nat>, n: nat, picked: seq<nat>)
    requires n <= |random| == |random'| && random[..n] == random'[..n]
    requires PickedFrom(env, infos, q, random, n, picked)
    ensures PickedFrom(env, infos, q, random', n, picked)
  {
    assert forall i | 0 <= i < n :: random'[i] == random'[..n][i] == random[..n][i] == random[i];
  }

  // The whole list looked at.
  lemma PickedAll(env: Env, infos: Infos, q: Query, random: seq<nat>, picked: seq<nat>)
    requires PickedFrom(env, infos, q, random, |random|, picked)
    requires forall id | id in infos :: id in random
    ensures forall id | id in infos && q.Wants(env, infos[id]) :: id in picked
  {
  }

  lemma NoneTwice(infos: Infos, random: seq<nat>, n: nat)
    requires RandomSane(infos, random) && n < |random|
    ensures random[n] in infos && random[n] !in random[..n]
    ensures forall id | id in infos :: id in random
  {
    forall i | 0 <= i < n ensures random[i] != random[n] {
      assert random[i] in infos && random[n] in infos;
    }
    forall id | id in infos ensures id in random {
      assert random[infos[id].randomPos] == id;
    }
  }
}
