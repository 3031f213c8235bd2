/** Team rosters and spymasters, the part of `IrcCodenamesGame` that tracks who
    plays for which team. Both revisions of the engine keep them the same way. */
module Rosters {
  import opened Wrappers
  import opened Cards
  import opened Events

  /** One value per team, as the dicts keyed by `Team`. */
  datatype PerTeam<T> = PerTeam(red: T, blue: T) {
    function Get(t: Team): T {
      if t == Red then red else blue
    }

    function With(t: Team, v: T): (p: PerTeam<T>)
      ensures p.Get(t) == v && p.Get(t.Other()) == Get(t.Other())
    {
      if t == Red then this.(red := v) else this.(blue := v)
    }
  }

  datatype Roster = Roster(teams: PerTeam<set<string>>, spymasters: PerTeam<Option<string>>)

  /** The team's spymaster, if any, plays on that team. */
  predicate SpymasterIsMember(r: Roster, t: Team) {
    r.spymasters.Get(t).Some? ==> r.spymasters.Get(t).value in r.teams.Get(t)
  }

  /** The roster invariant: spymasters are members of their team and nobody is on both teams. */
  predicate Consistent(r: Roster) {
    SpymasterIsMember(r, Red) && SpymasterIsMember(r, Blue) && r.teams.red !! r.teams.blue
  }

  /** `get_player_team`: the first team, red before blue, that lists the player. */
  function PlayerTeam(r: Roster, p: string): (t: Option<Team>)
    ensures t.Some? ==> p in r.teams.Get(t.value)
    ensures t.None? <==> p !in r.teams.red && p !in r.teams.blue
    ensures p in r.teams.red ==> t == Some(Red)
  {
    if p in r.teams.red then Some(Red)
    else if p in r.teams.blue then Some(Blue)
    else None
  }

  /** Take `p` off team `t`, and off its spymaster post if `p` held it. */
  function Drop(r: Roster, p: string, t: Team): Roster {
    Roster(
      r.teams.With(t, r.teams.Get(t) - {p}),
      if r.spymasters.Get(t) == Some(p) then r.spymasters.With(t, None) else r.spymasters)
  }

  /** `add_player`: nothing happens if `p` is already on `t`; otherwise `p` leaves
      the other team (and its spymaster post) if they were on it, and joins `t`. */
  function AddPlayer(r: Roster, p: string, t: Team): (r': Roster)
    ensures p in r'.teams.Get(t)
    ensures p in r.teams.Get(t) ==> r' == r
    ensures p !in r.teams.Get(t) ==>
      && r'.teams.Get(t) == r.teams.Get(t) + {p}
      && r'.teams.Get(t.Other()) == r.teams.Get(t.Other()) - {p}
      && r'.spymasters.Get(t) == r.spymasters.Get(t)
      && r'.spymasters.Get(t.Other()) ==
           (if p in r.teams.Get(t.Other()) && r.spymasters.Get(t.Other()) == Some(p) then None
            else r.spymasters.Get(t.Other()))
    ensures r.teams.red !! r.teams.blue ==> PlayerTeam(r', p) == Some(t)
    ensures Consistent(r) ==> Consistent(r')
  {
    if p in r.teams.Get(t) then r
    else
      var o := t.Other();
      var r1 := if p in r.teams.Get(o) then Drop(r, p, o) else r;
      Roster(r1.teams.With(t, r1.teams.Get(t) + {p}), r1.spymasters)
  }

  /** `remove_player`: take `p` off the first team that lists them, clear their
      spymastership there, and report that team; report nothing if `p` plays on neither. */
  function RemovePlayer(r: Roster, p: string): (res: (Roster, Option<Team>))
    ensures res.1 == PlayerTeam(r, p)
    ensures res.1.None? ==> res.0 == r
    ensures res.1.Some? ==>
      var t := res.1.value;
      && res.0.teams.Get(t) == r.teams.Get(t) - {p}
      && res.0.teams.Get(t.Other()) == r.teams.Get(t.Other())
      && res.0.spymasters.Get(t) ==
           (if r.spymasters.Get(t) == Some(p) then None else r.spymasters.Get(t))
      && res.0.spymasters.Get(t.Other()) == r.spymasters.Get(t.Other())
    ensures r.teams.red !! r.teams.blue ==> PlayerTeam(res.0, p).None?
    ensures Consistent(r) ==> Consistent(res.0)
  {
    if p in r.teams.red then (Drop(r, p, Red), Some(Red))
    else if p in r.teams.blue then (Drop(r, p, Blue), Some(Blue))
    else (r, None)
  }

  /** `set_spymaster`: only a member of `t` can become its spymaster. */
  function SetSpymaster(r: Roster, t: Team, p: string): (res: Result<Roster, GameError>)
    ensures res.Failure? <==> p !in r.teams.Get(t)
    ensures res.Failure? ==> res.error == NotOnTeam(t)
    ensures res.Success? ==>
      && res.value.spymasters.Get(t) == Some(p)
      && res.value.spymasters.Get(t.Other()) == r.spymasters.Get(t.Other())
      && res.value.teams == r.teams
    ensures res.Success? && Consistent(r) ==> Consistent(res.value)
  {
    if p !in r.teams.Get(t) then Failure(NotOnTeam(t))
    else Success(Roster(r.teams, r.spymasters.With(t, Some(p))))
  }

  /** Under the invariant nobody is spymaster of both teams. */
  lemma SpymasterOfOneTeam(r: Roster, p: string)
    requires Consistent(r)
    ensures !(r.spymasters.red == Some(p) && r.spymasters.blue == Some(p))
  {
  }
}
