/** Checking an API key and the "loading" dots shown meanwhile
    (src/settings/api_key_loader.rs). The `tokeninfo` request is a
    parameter: its decoded reply, or `None` when the request fails. */
module ApiKeyLoader {
  import opened Prelude
  import opened Entities

  const InvalidKey: string := "Invalid Api Key!"
  const InvalidPermissions: string := "Invalid permissions!"

  /** A key is usable when it grants both inventory and account access. */
  predicate Permitted(permissions: seq<Gw2Permission>) {
    Inventories in permissions && Account in permissions
  }

  /** `verify_api_key`: ignored while a check is under way; otherwise the
      check ends in `Success` with the key as given when the key is valid
      and permitted, and in an error naming what was wrong otherwise. */
  function VerifyApiKey(s: LoadingState<string>, key: string, reply: Option<Gw2ApiKey>): (r: LoadingState<string>)
    ensures s.Loading? ==> r == s
    ensures !s.Loading? ==> (r.Success? <==> reply.Some? && Permitted(reply.value.permissions))
    ensures !s.Loading? && r.Success? ==> r.value == key
    ensures !s.Loading? && !r.Success? ==> r.Error? && (r.message == InvalidKey <==> reply.None?)
    ensures !s.Loading? && reply.None? ==> r == Error(InvalidKey)
    ensures !s.Loading? && reply.Some? && !Permitted(reply.value.permissions) ==> r == Error(InvalidPermissions)
  {
    if s.Loading? then s
    else match reply
      case None => Error(InvalidKey)
      case Some(apiKey) =>
        if Inventories in apiKey.permissions && Account in apiKey.permissions then Success(key)
        else Error(InvalidPermissions)
  }

  /** The verdict does not depend on what the last check said, nor on the
      order in which the reply lists the permissions. */
  lemma VerifyIgnoresHistory(s1: LoadingState<string>, s2: LoadingState<string>, key: string,
                             a: Gw2ApiKey, b: Gw2ApiKey)
    requires !s1.Loading? && !s2.Loading?
    requires multiset(a.permissions) == multiset(b.permissions)
    ensures VerifyApiKey(s1, key, Some(a)) == VerifyApiKey(s2, key, Some(b))
  {
    assert Inventories in a.permissions <==> Inventories in multiset(a.permissions);
    assert Inventories in b.permissions <==> Inventories in multiset(b.permissions);
    assert Account in a.permissions <==> Account in multiset(a.permissions);
    assert Account in b.permissions <==> Account in multiset(b.permissions);
  }

  /** More permissions never turn an accepted key down. */
  lemma VerifyMonotone(s: LoadingState<string>, key: string, a: Gw2ApiKey, b: Gw2ApiKey)
    requires !s.Loading? && forall p :: p in a.permissions ==> p in b.permissions
    requires VerifyApiKey(s, key, Some(a)).Success?
    ensures VerifyApiKey(s, key, Some(b)) == Success(key)
  {
  }

  /* ---------------- the dots ---------------- */

  /** The dot animation: the index of the dots shown and when it last
      moved. */
  datatype Dots = Dots(lastUpdate: nat, state: nat)

  const States: seq<string> := ["", ".", "..", "..."]

  /** How long each frame of the animation lasts. */
  const Step: nat := 500

  predicate Valid(d: Dots) {
    d.state < |States|
  }

  function NewDots(now: nat): (d: Dots)
    ensures Valid(d) && CurrDots(d) == ""
  {
    Dots(now, 0)
  }

  /** `update`: once at least a step has passed, the next dots are shown,
      wrapping after the last, and the timer restarts. */
  function Update(d: Dots, now: nat): (d': Dots)
    requires Valid(d)
    ensures Valid(d')
    ensures now >= d.lastUpdate + Step ==> d'.state == (d.state + 1) % |States| && d'.lastUpdate == now
    ensures now < d.lastUpdate + Step ==> d' == d
  {
    var elapsed := if now >= d.lastUpdate then now - d.lastUpdate else 0;
    if elapsed >= Step then Dots(now, (d.state + 1) % |States|) else d
  }

  /** `curr_dots`: as many dots as the state says. */
  function CurrDots(d: Dots): (s: string)
    requires Valid(d)
    ensures |s| == d.state && forall i :: 0 <= i < |s| ==> s[i] == '.'
  {
    States[d.state]
  }

  /** Updates at the given clock readings, in order. */
  function Run(d: Dots, times: seq<nat>): (d': Dots)
    requires Valid(d)
    ensures Valid(d')
    decreases |times|
  {
    if |times| == 0 then d else Run(Update(d, times[0]), times[1..])
  }

  /** The number of readings a run of updates moves on at. */
  function Moves(d: Dots, times: seq<nat>): nat
    requires Valid(d)
    decreases |times|
  {
    if |times| == 0 then 0
    else (if times[0] >= d.lastUpdate + Step then 1 else 0) + Moves(Update(d, times[0]), times[1..])
  }

  /** The dots cycle: after a run of updates the state has moved on by the
      number of readings that came a step or more after the previous move,
      counted modulo four. */
  lemma {:induction false} RunCycles(d: Dots, times: seq<nat>)
    requires Valid(d)
    ensures Run(d, times).state == (d.state + Moves(d, times)) % |States|
    decreases |times|
  {
    if |times| > 0 {
      var d1 := Update(d, times[0]);
      RunCycles(d1, times[1..]);
      var m := if times[0] >= d.lastUpdate + Step then 1 else 0;
      assert d1.state == (d.state + m) % |States|;
      ModAdd(d.state + m, Moves(d1, times[1..]));
    }
  }

  lemma {:induction false} ModAdd(a: nat, b: nat)
    ensures (a % |States| + b) % |States| == (a + b) % |States|
    decreases a
  {
    assert |States| == 4;
    if a >= 4 {
      ModAdd(a - 4, b);
      assert a % 4 == (a - 4) % 4;
      assert (a + b) % 4 == (a - 4 + b) % 4;
    }
  }

  /** Four moves, a step apart, bring back the same dots. */
  lemma FourStepsCycle(d: Dots, t: nat)
    requires Valid(d) && t >= d.lastUpdate + Step
    ensures Run(d, [t, t + Step, t + 2 * Step, t + 3 * Step]).state == d.state
  {
    var times := [t, t + Step, t + 2 * Step, t + 3 * Step];
    var d1 := Update(d, t);
    var d2 := Update(d1, t + Step);
    var d3 := Update(d2, t + 2 * Step);
    var d4 := Update(d3, t + 3 * Step);
    assert Run(d, times) == Run(d1, [t + Step, t + 2 * Step, t + 3 * Step]) by {
      assert times[1..] == [t + Step, t + 2 * Step, t + 3 * Step];
    }
    assert Run(d1, [t + Step, t + 2 * Step, t + 3 * Step]) == Run(d3, [t + 3 * Step]) by {
      assert [t + Step, t + 2 * Step, t + 3 * Step][1..] == [t + 2 * Step, t + 3 * Step];
      assert [t + 2 * Step, t + 3 * Step][1..] == [t + 3 * Step];
    }
    assert Run(d3, [t + 3 * Step]) == d4 by {
      assert [t + 3 * Step][1..] == [];
    }
  }
}
