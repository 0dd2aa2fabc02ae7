// The cached server listing: a status response, its rendering, and the count of listed players.
module StatusCache {
  import opened Common
  import opened VarInts

  // The protocol number beside the name is a constant of another crate and is left to the rendering.
  datatype Version = Version(name: string)

  datatype Players = Players(max: u32, online: u32, sample: seq<string>)

  datatype StatusResponse = StatusResponse(
    version: Option<Version>, players: Option<Players>, description: string, favicon: Option<string>,
    enforceSecureChat: bool)

  // The part of the server configuration the listing shows.
  datatype Config = Config(maxPlayers: u32, motd: string)

  // The rendering to JSON, defined elsewhere.
  type Renderer = StatusResponse -> Bytes

  // The version of the game this server speaks.
  const CURRENT_VERSION := Version("1.21.5")

  function BuildResponse(config: Config): StatusResponse {
    StatusResponse(Some(CURRENT_VERSION), Some(Players(config.maxPlayers, 0, [])), config.motd, None, true)
  }

  // The count is a 32-bit machine word.
  function Counted(response: StatusResponse, change: int): StatusResponse {
    match response.players
    case None => response
    case Some(p) => response.(players := Some(p.(online := (p.online + change) % TWO_32)))
  }

  predicate CountIs(response: StatusResponse, n: nat) {
    response.players.Some? && response.players.value.online == n % TWO_32
  }

  lemma CountedUp(response: StatusResponse, n: nat)
    requires CountIs(response, n)
    ensures CountIs(Counted(response, 1), n + 1)
  {
    CountStep(n, 1);
  }

  lemma CountedDown(response: StatusResponse, n: nat)
    requires CountIs(response, n)
    ensures !CountIs(Counted(response, -1), n)
    ensures n > 0 ==> CountIs(Counted(response, -1), n - 1)
    ensures 0 < n < TWO_32 ==> response.players.value.online > 0
  {
    CountStep(n, -1);
    assert (n - 1) % TWO_32 != n % TWO_32;
  }

  lemma CountStep(n: nat, change: int)
    ensures (n % TWO_32 + change) % TWO_32 == (n + change) % TWO_32
  {
  }

  function Added(response: StatusResponse, listed: bool): StatusResponse {
    if listed then response else Counted(response, 1)
  }

  function Removed(response: StatusResponse, listed: bool): StatusResponse {
    if listed then Counted(response, -1) else response
  }

  function Updated(response: StatusResponse, config: Config): StatusResponse {
    var renewed := BuildResponse(config);
    match response.players
    case None => renewed
    case Some(p) => renewed.(players := Some(Players(config.maxPlayers, p.online, p.sample)))
  }

  // A connected player, with the flag that says it is counted in the listing.
  class Player {
    var addedToListing: bool

    constructor ()
      ensures !addedToListing
    {
      addedToListing := false;
    }
  }

  class CachedStatus {
    const render: Renderer
    var response: StatusResponse
    var json: Bytes
    // The players whose flag this cache has set.
    ghost var listed: set<Player>

    // The cached rendering is current, and the count is the number of flagged players.
    ghost predicate Valid()
      reads this, listed
    {
      && json == render(response)
      && CountIs(response, |listed|)
      && forall p :: p in listed ==> p.addedToListing
    }

    constructor FromConfig(render: Renderer, config: Config)
      ensures Valid() && this.render == render && response == BuildResponse(config) && listed == {}
    {
      this.render := render;
      response := BuildResponse(config);
      json := render(BuildResponse(config));
      listed := {};
    }

    method GetStatusString() returns (s: Bytes)
      ensures s == json
    {
      s := json;
    }

    // A player some listing already counts is not counted again, whichever listing that is.
    method AddPlayer(player: Player)
      requires Valid()
      modifies this, player
      ensures Valid() && listed == old(listed) + if old(player.addedToListing) then {} else {player}
      ensures player.addedToListing
      ensures response == Added(old(response), old(player.addedToListing))
    {
      if response.players.Some? && !player.addedToListing {
        CountedUp(response, |listed|);
        player.addedToListing := true;
        response := Counted(response, 1);
        listed := listed + {player};
      }
      json := render(response);
    }

    // The count stays right exactly if the player was not counted elsewhere.
    method RemovePlayer(player: Player)
      requires Valid()
      modifies this, player
      ensures Valid() <==> (old(player.addedToListing) ==> player in old(listed))
      ensures !player.addedToListing && listed == old(listed) - {player}
      ensures response == Removed(old(response), old(player.addedToListing)) && json == render(response)
      // The decrement does not wrap as long as the players can be counted at all.
      ensures player in old(listed) && |old(listed)| < TWO_32 ==> old(response).players.value.online > 0
    {
      if response.players.Some? && player.addedToListing {
        CountedDown(response, |listed|);
        player.addedToListing := false;
        response := Counted(response, -1);
      }
      listed := listed - {player};
      json := render(response);
    }

    method Update(config: Config)
      requires Valid()
      modifies this
      ensures Valid() && listed == old(listed)
      ensures response == Updated(old(response), config)
      ensures response.version == Some(Version("1.21.5")) && response.description == config.motd
      ensures var was := old(response).players.value;
        response.players == Some(Players(config.maxPlayers, was.online, was.sample))
    {
      var updated := BuildResponse(config);
      if response.players.Some? {
        var p := response.players.value;
        updated := updated.(players := Some(Players(config.maxPlayers, p.online, p.sample)));
      }
      response := updated;
      json := render(response);
    }
  }

  // ---- Whole histories ----

  datatype Op = Add(player: nat) | Remove(player: nat) | Reconfigure(config: Config)

  // The listing together with the set of players whose flag is set.
  datatype Listing = Listing(response: StatusResponse, json: Bytes, flagged: set<nat>)

  function Fresh(render: Renderer, config: Config): Listing {
    Listing(BuildResponse(config), render(BuildResponse(config)), {})
  }

  function Apply(render: Renderer, l: Listing, op: Op): Listing {
    match op
    case Add(p) =>
      var r := Added(l.response, p in l.flagged || l.response.players.None?);
      Listing(r, render(r), if l.response.players.Some? then l.flagged + {p} else l.flagged)
    case Remove(p) =>
      var r := Removed(l.response, p in l.flagged && l.response.players.Some?);
      Listing(r, render(r), if l.response.players.Some? then l.flagged - {p} else l.flagged)
    case Reconfigure(config) =>
      var r := Updated(l.response, config);
      Listing(r, render(r), l.flagged)
  }

  function ApplyAll(render: Renderer, l: Listing, ops: seq<Op>): Listing {
    if ops == [] then l else Apply(render, ApplyAll(render, l, ops[..|ops| - 1]), ops[|ops| - 1])
  }

  // The players whose last Add or Remove was an Add.
  ghost predicate InListing(ops: seq<Op>, p: nat) {
    ops != [] &&
    (var n := |ops| - 1;
      if ops[n] == Add(p) then true
      else if ops[n] == Remove(p) then false
      else InListing(ops[..n], p))
  }

  function LastConfig(config: Config, ops: seq<Op>): Config {
    if ops == [] then config
    else if ops[|ops| - 1].Reconfigure? then ops[|ops| - 1].config
    else LastConfig(config, ops[..|ops| - 1])
  }

  // The count is the number of flagged players, and the cached rendering is current.
  ghost predicate Consistent(render: Renderer, l: Listing) {
    CountIs(l.response, |l.flagged|) && l.json == render(l.response)
  }

  lemma StepConsistent(render: Renderer, l: Listing, op: Op)
    requires Consistent(render, l)
    ensures Consistent(render, Apply(render, l, op))
  {
    match op {
      case Add(p) =>
        if p in l.flagged {
          assert l.flagged + {p} == l.flagged;
        } else {
          CountedUp(l.response, |l.flagged|);
        }
      case Remove(p) =>
        if p in l.flagged {
          CountedDown(l.response, |l.flagged|);
        } else {
          assert l.flagged - {p} == l.flagged;
        }
      case Reconfigure(_) =>
    }
  }

  lemma {:induction false} AlwaysConsistent(render: Renderer, config: Config, ops: seq<Op>)
    ensures Consistent(render, ApplyAll(render, Fresh(render, config), ops))
    decreases |ops|
  {
    if ops != [] {
      AlwaysConsistent(render, config, ops[..|ops| - 1]);
      StepConsistent(render, ApplyAll(render, Fresh(render, config), ops[..|ops| - 1]), ops[|ops| - 1]);
    }
  }

  // After every history, repeats included: the count is the number of players whose last change was to be added, the
  // cached rendering is the rendering of the response, and but for the count the response is the one a fresh listing
  // would have for the configuration last applied.
  lemma {:induction false} ListingConserved(render: Renderer, config: Config, ops: seq<Op>)
    ensures var l := ApplyAll(render, Fresh(render, config), ops);
      && Consistent(render, l)
      && (forall p :: p in l.flagged <==> InListing(ops, p))
      && var c := LastConfig(config, ops);
         l.response == StatusResponse(Some(Version("1.21.5")),
                                      Some(Players(c.maxPlayers, l.response.players.value.online, [])),
                                      c.motd, None, true)
    decreases |ops|
  {
    AlwaysConsistent(render, config, ops);
    if ops != [] {
      ListingConserved(render, config, ops[..|ops| - 1]);
    }
  }

  // A player is listed exactly if added and not removed since.
  lemma {:induction false} ListedSince(config: Config, ops: seq<Op>, p: nat)
    ensures InListing(ops, p)
      <==> exists k :: 0 <= k < |ops| && ops[k] == Add(p) && forall j :: k < j < |ops| ==> ops[j] != Remove(p)
    decreases |ops|
  {
    if ops != [] {
      var n := |ops| - 1;
      var front := ops[..n];
      ListedSince(config, front, p);
      if ops[n] != Remove(p) && ops[n] != Add(p) && InListing(front, p) {
        var k :| 0 <= k < |front| && front[k] == Add(p) && forall j :: k < j < |front| ==> front[j] != Remove(p);
        assert ops[k] == Add(p) && forall j :: k < j < |ops| ==> ops[j] == if j < n then front[j] else ops[n];
      }
      if k :| 0 <= k < n && ops[k] == Add(p) && forall j :: k < j < |ops| ==> ops[j] != Remove(p) {
        assert front[k] == Add(p) && forall j :: k < j < n ==> front[j] == ops[j];
      }
    }
  }

  // The configuration of the last change, or the one at start if there was no change.
  ghost predicate LastChangeTo(config: Config, ops: seq<Op>, c: Config) {
    || (c == config && forall j :: 0 <= j < |ops| ==> !ops[j].Reconfigure?)
    || exists k :: 0 <= k < |ops| && ops[k] == Reconfigure(c) && forall j :: k < j < |ops| ==> !ops[j].Reconfigure?
  }

  lemma OthersKeepConfig(config: Config, front: seq<Op>, op: Op, c: Config)
    requires LastChangeTo(config, front, c) && !op.Reconfigure?
    ensures LastChangeTo(config, front + [op], c)
  {
    var ops := front + [op];
    if !(c == config && forall j :: 0 <= j < |front| ==> !front[j].Reconfigure?) {
      var k :| 0 <= k < |front| && front[k] == Reconfigure(c) && forall j :: k < j < |front| ==> !front[j].Reconfigure?;
      assert ops[k] == Reconfigure(c);
    }
  }

  lemma ChangeTakesOver(config: Config, front: seq<Op>, c: Config)
    ensures LastChangeTo(config, front + [Reconfigure(c)], c)
  {
    assert (front + [Reconfigure(c)])[|front|] == Reconfigure(c);
  }

  lemma {:induction false} LastConfigShown(config: Config, ops: seq<Op>)
    ensures LastChangeTo(config, ops, LastConfig(config, ops))
    decreases |ops|
  {
    if ops != [] {
      var n := |ops| - 1;
      assert ops[..n] + [ops[n]] == ops;
      if ops[n].Reconfigure? {
        ChangeTakesOver(config, ops[..n], ops[n].config);
      } else {
        LastConfigShown(config, ops[..n]);
        OthersKeepConfig(config, ops[..n], ops[n], LastConfig(config, ops[..n]));
      }
    }
  }

  // Below 2^32 players the count is exact, and a player who is removed was counted: no decrement wraps.
  lemma CountExact(render: Renderer, config: Config, ops: seq<Op>)
    ensures var l := ApplyAll(render, Fresh(render, config), ops);
      |l.flagged| < TWO_32 ==>
        && l.response.players.Some? && l.response.players.value.online == |l.flagged|
        && forall p :: InListing(ops, p) ==> l.response.players.value.online > 0
  {
    ListingConserved(render, config, ops);
    Countable(ApplyAll(render, Fresh(render, config), ops));
  }

  lemma Countable(l: Listing)
    requires CountIs(l.response, |l.flagged|)
    ensures |l.flagged| < TWO_32 ==> l.response.players.value.online == |l.flagged|
    ensures |l.flagged| < TWO_32 ==> forall p :: p in l.flagged ==> l.response.players.value.online > 0
  {
  }

  // ---- A replaced listing ----

  // What the server does on a new configuration: the listing is built afresh, but the players keep their flags.
  function Replaced(render: Renderer, l: Listing, config: Config): Listing {
    Fresh(render, config).(flagged := l.flagged)
  }

  // Replacing the listing keeps the count right exactly if nobody is counted (or a multiple of 2^32 are). Otherwise
  // the next removal of a counted player takes the count below zero, and it wraps.
  lemma ReplacementResetsCount(render: Renderer, l: Listing, config: Config)
    ensures Consistent(render, Replaced(render, l, config)) <==> |l.flagged| % TWO_32 == 0
    ensures forall p :: p in l.flagged ==>
      Apply(render, Replaced(render, l, config), Remove(p)).response.players.value.online == TWO_32 - 1
  {
    assert (0 - 1) % TWO_32 == TWO_32 - 1;
  }
}
