/** How ids for new downtimes are found, and exactly when one is handed out twice. */
module DowntimeIds {
  ghost function Above(used: set<nat>, n: nat): set<nat> {
    set u | u in used && u > n
  }

  /** get_next_downtime_id: takes a number, but looks whether the one after it is free. */
  function NextId(used: set<nat>, next: nat): (n: nat)
    ensures n >= next && n + 1 !in used && forall m :: next < m <= n ==> m in used
    decreases |Above(used, next)|
  {
    if next + 1 !in used then next
    else
      assert Above(used, next) == Above(used, next + 1) + {next + 1};
      NextId(used, next + 1)
  }

  /** The id found is already in use exactly when one of the first two candidates is. */
  lemma {:induction false} NextIdTakenIff(used: set<nat>, next: nat)
    ensures NextId(used, next) in used <==> next in used || next + 1 in used
    decreases |Above(used, next)|
  {
    if next + 1 in used {
      assert Above(used, next) == Above(used, next + 1) + {next + 1};
      NextIdTakenIff(used, next + 1);
    }
  }

  /** Every id in use is behind the counter. */
  ghost predicate Behind(used: set<nat>, next: nat) {
    forall u :: u in used ==> u < next
  }

  /** What downtime_add does to the counter for an entry that brings its own id. */
  function AfterLoad(next: nat, id: nat): nat {
    if id > next then id + 1 else next
  }

  /** Loading keeps the counter ahead of all ids exactly when the loaded id is not the counter itself. */
  lemma LoadKeepsBehindIff(used: set<nat>, next: nat, id: nat)
    requires Behind(used, next)
    ensures Behind(used + {id}, AfterLoad(next, id)) <==> id != next
  {
    assert id in used + {id};
  }

  /** While the counter is ahead, new ids are the counter itself and unused. */
  lemma BehindIsFresh(used: set<nat>, next: nat)
    requires Behind(used, next)
    ensures NextId(used, next) == next && next !in used && Behind(used + {next}, next + 1)
  {
  }

  /** An entry loaded under the id the counter stands at gets a namesake. */
  lemma LoadedAtCounterIsReused(used: set<nat>, next: nat)
    requires Behind(used, next)
    ensures NextId(used + {next}, AfterLoad(next, next)) == next
  {
  }
}
