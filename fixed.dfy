/** `FixedScore`: an entity that always scores the same configured value. */
module FixedScoring {
  import opened Entities
  import opened Scoring

  datatype FixedScore = FixedScore(value: Score)

  /** `FixedScore::new`: the configured value, clamped into a score. */
  function NewFixed(v: real): (f: FixedScore)
    ensures 0.0 <= v <= 1.0 ==> f.value.value == v
    ensures v < 0.0 ==> f.value == MIN
    ensures 1.0 < v ==> f.value == MAX
  {
    FixedScore(New(v))
  }

  /** `FixedScore::set_value`: replaces the value, clamped; the old one plays no part. */
  function SetValue(f: FixedScore, v: real): (g: FixedScore)
    ensures g == NewFixed(v)
    ensures 0.0 <= v <= 1.0 ==> g.value.value == v
  {
    f.(value := New(v))
  }

  /**
   * The observer for `OnScore`: an entity with both a `Score` and a
   * `FixedScore` takes the configured value as it is. Children are not
   * consulted, so nothing about them is a parameter.
   */
  method Observer(store: ScoreStore, fixed: map<Entity, FixedScore>, e: Entity)
    modifies store
    ensures e in old(store.of) && e in fixed ==> store.of == old(store.of)[e := fixed[e].value]
    ensures !(e in old(store.of) && e in fixed) ==> store.of == old(store.of)
  {
    if e in store.of && e in fixed {
      store.of := store.of[e := fixed[e].value];
    }
  }
}
