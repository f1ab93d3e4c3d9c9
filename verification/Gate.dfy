// The readiness gate: named checks filed under ascending keys, of which the lowest unmet one decides which
// priorities may pass.

module Gate {
  import opened Common

  // What the checks answer at one moment.
  type Answers = int -> bool

  ghost predicate Unmet(ready: map<int, seq<int>>, key: int, answers: Answers) {
    key in ready && exists i :: 0 <= i < |ready[key]| && !answers(ready[key][i])
  }

  ghost predicate IsGate(ready: map<int, seq<int>>, gate: Option<int>, answers: Answers) {
    match gate
    case None => forall k :: !Unmet(ready, k, answers)
    case Some(g) => Unmet(ready, g, answers) && forall k :: k < g ==> !Unmet(ready, k, answers)
  }

  lemma EmptyWithout(keys: set<int>)
    ensures (forall k :: k !in keys) ==> keys == {}
  {
    if forall k :: k !in keys {
      assert keys == {};
    }
  }

  lemma {:induction false} MinKey(keys: set<int>) returns (m: int)
    requires keys != {}
    ensures m in keys && forall k :: k in keys ==> m <= k
    decreases |keys|
  {
    EmptyWithout(keys);
    m :| m in keys;
    var rest := keys - {m};
    assert forall k :: k in keys <==> k == m || k in rest;
    if rest != {} {
      var n := MinKey(rest);
      if n < m {
        m := n;
      }
    }
  }

  // The first key of an ordered map.
  method First(keys: set<int>) returns (m: int)
    requires keys != {}
    ensures m in keys && forall k :: k in keys ==> m <= k
  {
    ghost var n := MinKey(keys);
    m :| m in keys && forall k :: k in keys ==> m <= k;
  }

  class NReady {
    // Check ids by key.
    var ready: map<int, seq<int>>

    constructor ()
      ensures ready == map[]
    {
      ready := map[];
    }

    // Files a check one key above its level, so that messages of that very level get past it.
    method SetReady(check: int, level: int)
      modifies this
      ensures ready.Keys == old(ready.Keys) + {level + 1}
      ensures ready[level + 1] == (if level + 1 in old(ready) then old(ready[level + 1]) else []) + [check]
      ensures forall k :: k in old(ready) && k != level + 1 ==> ready[k] == old(ready[k])
    {
      ready := ready[level + 1 := (if level + 1 in ready then ready[level + 1] else []) + [check]];
    }

    // Whether all checks under one key are met.
    method Met(key: int, answers: Answers) returns (met: bool)
      requires key in ready
      ensures met <==> !Unmet(ready, key, answers)
    {
      for i := 0 to |ready[key]|
        invariant forall j :: 0 <= j < i ==> answers(ready[key][j])
      {
        if !answers(ready[key][i]) {
          met := false;
          return;
        }
      }
      met := true;
    }

    method HightlevelReady(answers: Answers) returns (gate: Option<int>)
      ensures IsGate(ready, gate, answers)
    {
      var rest := ready.Keys;
      while rest != {}
        invariant rest <= ready.Keys
        invariant forall k, j :: k in ready && k !in rest && j in rest ==> k < j
        invariant forall k :: k in ready && k !in rest ==> !Unmet(ready, k, answers)
        decreases rest
      {
        var key := First(rest);
        var met := Met(key, answers);
        if !met {
          gate := Some(key);
          return;
        }
        rest := rest - {key};
      }
      gate := None;
    }

    method IsReady(answers: Answers) returns (ok: bool)
      ensures ok <==> forall k :: !Unmet(ready, k, answers)
    {
      var rest := ready.Keys;
      while rest != {}
        invariant rest <= ready.Keys
        invariant forall k :: k in ready && k !in rest ==> !Unmet(ready, k, answers)
        decreases rest
      {
        var key := First(rest);
        var met := Met(key, answers);
        if !met {
          ok := false;
          return;
        }
        rest := rest - {key};
      }
      ok := true;
    }
  }

  // Whether the gate lets a priority through.
  predicate Passes(level: int, gate: Option<int>) {
    gate.None? || level < gate.value
  }

  // Staged loading cannot block itself: once every check of a lower level is met, the messages of a level
  // pass, whatever its own checks and later ones say.
  lemma OwnMessagesPass(ready: map<int, seq<int>>, gate: Option<int>, answers: Answers, level: int)
    requires IsGate(ready, gate, answers)
    ensures Passes(level, gate) <==> forall k :: k <= level ==> !Unmet(ready, k, answers)
  {
  }
}
