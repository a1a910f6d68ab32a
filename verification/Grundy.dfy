/** Memoised Grundy values of impartial games. */
module Grundy {

  /** A game: the moves of each position; the rank says that every play ends. */
  datatype Game<!G> = Game(moves: G -> seq<G>, rank: G -> nat)

  ghost predicate EndsAlways<G(!new)>(game: Game<G>) {
    forall g, i :: 0 <= i < |game.moves(g)| ==> game.rank(game.moves(g)[i]) < game.rank(g)
  }

  // ---- The least value that is missing ----

  ghost predicate IsMex(m: nat, values: seq<nat>) {
    m !in values && forall k: nat :: k < m ==> k in values
  }

  /** n different values need n places. */
  lemma {:induction false} Pigeonhole(n: nat, values: seq<nat>)
    requires forall k: nat :: k < n ==> k in values
    ensures n <= |values|
  {
    if n > 0 {
      assert n - 1 in values;
      var i :| 0 <= i < |values| && values[i] == n - 1;
      var rest := values[..i] + values[i + 1..];
      forall k: nat | k < n - 1 ensures k in rest {
        assert k in values;
        var j :| 0 <= j < |values| && values[j] == k;
        assert rest[if j < i then j else j - 1] == k;
      }
      Pigeonhole(n - 1, rest);
    }
  }

  function MexFrom(values: seq<nat>, k: nat): (m: nat)
    requires forall j: nat :: j < k ==> j in values
    ensures IsMex(m, values) && m <= |values|
    decreases |values| + 1 - k
  {
    Pigeonhole(k, values);
    if k in values then
      assert forall j: nat :: j < k + 1 ==> j in values;
      Pigeonhole(k + 1, values);
      MexFrom(values, k + 1)
    else k
  }

  function Mex(values: seq<nat>): (m: nat)
    ensures IsMex(m, values) && m <= |values|
  {
    MexFrom(values, 0)
  }

  // ---- The value of a position, without a cache ----

  ghost function Value<G(!new)>(game: Game<G>, g: G): nat
    requires EndsAlways(game)
    decreases game.rank(g), 1
  {
    Mex(ValuesAfter(game, g))
  }

  ghost function ValuesAfter<G(!new)>(game: Game<G>, g: G): (values: seq<nat>)
    requires EndsAlways(game)
    ensures |values| == |game.moves(g)| && forall i :: 0 <= i < |values| ==> values[i] == Value(game, game.moves(g)[i])
    decreases game.rank(g), 0
  {
    seq(|game.moves(g)|, i requires 0 <= i < |game.moves(g)| => Value(game, game.moves(g)[i]))
  }

  /** The player to move wins: some move leaves the opponent without a winning move. */
  ghost predicate Wins<G(!new)>(game: Game<G>, g: G)
    requires EndsAlways(game)
    decreases game.rank(g)
  {
    exists i :: 0 <= i < |game.moves(g)| && !Wins(game, game.moves(g)[i])
  }

  lemma {:induction false} ZeroIffLosing<G(!new)>(game: Game<G>, g: G)
    requires EndsAlways(game)
    ensures Value(game, g) == 0 <==> !Wins(game, g)
    decreases game.rank(g)
  {
    var moves := game.moves(g);
    var values := ValuesAfter(game, g);
    forall i | 0 <= i < |moves| ensures values[i] == 0 <==> !Wins(game, moves[i]) {
      ZeroIffLosing(game, moves[i]);
    }
    assert Value(game, g) == 0 <==> 0 !in values;
  }

  // ---- The memoised computation ----

  class Grundifier<G(!new,==)> {
    const game: Game<G>
    var cache: map<G, nat>

    /** Every entry was computed by an earlier call. */
    ghost predicate Valid()
      reads this
    {
      EndsAlways(game) && forall g :: g in cache ==> cache[g] == Value(game, g)
    }

    constructor (game: Game<G>)
      requires EndsAlways(game)
      ensures Valid() && this.game == game && cache == map[]
    {
      this.game := game;
      cache := map[];
    }

    method Grundify(g: G) returns (value: nat)
      requires Valid()
      modifies this`cache
      ensures Valid()
      ensures value == Value(game, g)
      ensures g in cache && old(cache).Keys <= cache.Keys
      decreases game.rank(g)
    {
      if g in cache {
        return cache[g];
      }
      var moves := game.moves(g);
      var movesGrundys: seq<nat> := [];
      for i := 0 to |moves|
        invariant Valid() && old(cache).Keys <= cache.Keys
        invariant |movesGrundys| == i && forall j :: 0 <= j < i ==> movesGrundys[j] == Value(game, moves[j])
      {
        var child := Grundify(moves[i]);
        movesGrundys := movesGrundys + [child];
      }
      assert movesGrundys == ValuesAfter(game, g);
      var index := LeastMissing(movesGrundys);
      cache := cache[g := index];
      return index;
    }
  }

  /** The marks and the search. The search always finds an unmarked place, so the throw after it is not reached. */
  method LeastMissing(values: seq<nat>) returns (index: nat)
    ensures index == Mex(values)
  {
    var size := |values| + 1;
    var mex := new bool[size](_ => false);
    for i := 0 to |values|
      invariant forall k: nat :: k < size ==> (mex[k] <==> k in values[..i])
    {
      if values[i] < size {
        mex[values[i]] := true;
      }
    }
    assert values[..|values|] == values;
    index := 0;
    while index < size
      invariant index <= size && forall k: nat :: k < index ==> mex[k]
    {
      if !mex[index] {
        return;
      }
      index := index + 1;
    }
    Pigeonhole(size, values);
    assert false;
  }
}
