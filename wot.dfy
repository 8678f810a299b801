/**
 * The web-of-trust graph builder (`wot.py`): peers whose public keys sign one
 * another's keys, and the construction of a random network in which every
 * signature is reciprocated.
 *
 * A peer is named by its position in the network's peer list; `signed` holds
 * those positions.  Peers are distinct objects, so comparing two peers by
 * identity is comparing their positions.
 */
module WebOfTrust {

  /** A peer's key and the list of keys it has signed, in signing order. */
  class Pubkey {
    var signed: seq<nat>

    /** A new key has signed nothing. */
    constructor ()
      ensures signed == []
    {
      signed := [];
    }

    /** Sign `ref`: append it, with no check for duplicates or for `ref` being this peer. */
    method Sign(ref: nat)
      modifies this
      ensures signed == old(signed) + [ref]
    {
      signed := signed + [ref];
    }
  }

  /** The signature lists of a whole network, peer by peer. */
  type Adjacency = seq<seq<nat>>

  /** Every signature names a peer of the network. */
  predicate InRange(adj: Adjacency)
  {
    forall p, k :: 0 <= p < |adj| && 0 <= k < |adj[p]| ==> adj[p][k] < |adj|
  }

  /** No peer has signed its own key. */
  predicate NoSelfSignature(adj: Adjacency)
  {
    forall p :: 0 <= p < |adj| ==> p !in adj[p]
  }

  /** `q` has signed `p` exactly when `p` has signed `q`. */
  predicate Symmetric(adj: Adjacency)
  {
    forall p, q :: 0 <= p < |adj| && 0 <= q < |adj| ==> (q in adj[p] <==> p in adj[q])
  }

  /** No signature list names the same peer twice. */
  predicate NoDuplicates(adj: Adjacency)
  {
    forall p, i, j :: 0 <= p < |adj| && 0 <= i < j < |adj[p]| ==> adj[p][i] != adj[p][j]
  }

  /** The shape every network built by `MakeG` has. */
  predicate Reciprocal(adj: Adjacency)
  {
    InRange(adj) && NoSelfSignature(adj) && Symmetric(adj) && NoDuplicates(adj)
  }

  /** The total number of signatures in the network. */
  function TotalSignatures(adj: Adjacency): nat
  {
    if adj == [] then 0 else |adj[0]| + TotalSignatures(adj[1..])
  }

  /** Every buddy drawn for a peer is a peer of an `n`-peer network. */
  predicate DrawsInRange(draws: seq<seq<nat>>, n: nat)
  {
    forall p, j :: 0 <= p < |draws| && 0 <= j < |draws[p]| ==> draws[p][j] < n
  }

  /**
   * One draw: peer `p` picked `buddy`.  Unless `buddy` is `p` itself or has
   * already signed `p`, each signs the other.
   */
  function SignPair(adj: Adjacency, p: nat, buddy: nat): (r: Adjacency)
    requires p < |adj| && buddy < |adj|
    ensures |r| == |adj|
  {
    if buddy != p && p !in adj[buddy] then
      adj[buddy := adj[buddy] + [p]][p := adj[p] + [buddy]]
    else
      adj
  }

  /** The remaining draws `buddies` of peer `p`, one after the other. */
  function SignDraws(adj: Adjacency, p: nat, buddies: seq<nat>): (r: Adjacency)
    requires p < |adj| && forall j :: 0 <= j < |buddies| ==> buddies[j] < |adj|
    ensures |r| == |adj|
    decreases |buddies|
  {
    if buddies == [] then adj else SignDraws(SignPair(adj, p, buddies[0]), p, buddies[1..])
  }

  /** The draws of peers `p`, `p + 1`, ... in turn. */
  function SignPeers(adj: Adjacency, draws: seq<seq<nat>>, p: nat): (r: Adjacency)
    requires p <= |draws| == |adj| && DrawsInRange(draws, |adj|)
    ensures |r| == |adj|
    decreases |adj| - p
  {
    if p == |adj| then adj else SignPeers(SignDraws(adj, p, draws[p]), draws, p + 1)
  }

  /** `n` peers that have signed nothing. */
  function Unsigned(n: nat): Adjacency
  {
    seq(n, _ => [])
  }

  /**
   * The network `makeg` builds from `n` unsigned peers when peer `p` draws the
   * buddies `draws[p]` (so `|draws[p]|` is the signature count it drew).
   */
  function Network(n: nat, draws: seq<seq<nat>>): (r: Adjacency)
    requires |draws| == n && DrawsInRange(draws, n)
    ensures |r| == n
  {
    SignPeers(Unsigned(n), draws, 0)
  }

  /** One draw keeps the network reciprocal. */
  lemma SignPairReciprocal(adj: Adjacency, p: nat, buddy: nat)
    requires p < |adj| && buddy < |adj| && Reciprocal(adj)
    ensures Reciprocal(SignPair(adj, p, buddy))
  {
    if buddy != p && p !in adj[buddy] {
      // By symmetry the buddy is not yet in `p`'s list either, so neither append duplicates.
      assert buddy !in adj[p];
    }
  }

  /**
   * On a symmetric network, after a draw of a buddy other than `p`, the two have signed each other's
   * keys; no earlier signature is lost or reordered, a list grows by at most
   * one entry, the lists of all other peers are unchanged, and drawing
   * oneself changes nothing.
   */
  lemma SignPairLinks(adj: Adjacency, p: nat, buddy: nat)
    requires p < |adj| && buddy < |adj| && Symmetric(adj)
    ensures buddy != p ==> p in SignPair(adj, p, buddy)[buddy] && buddy in SignPair(adj, p, buddy)[p]
    ensures forall q :: 0 <= q < |adj| ==> adj[q] <= SignPair(adj, p, buddy)[q]
    ensures forall q :: 0 <= q < |adj| ==> |SignPair(adj, p, buddy)[q]| <= |adj[q]| + 1
    ensures forall q :: 0 <= q < |adj| && q != p && q != buddy ==> SignPair(adj, p, buddy)[q] == adj[q]
    ensures buddy == p ==> SignPair(adj, p, buddy) == adj
  {
  }

  /** One draw adds either no signature or a mirrored pair of them. */
  lemma SignPairCount(adj: Adjacency, p: nat, buddy: nat)
    requires p < |adj| && buddy < |adj|
    ensures var added := if buddy != p && p !in adj[buddy] then 2 else 0;
            TotalSignatures(SignPair(adj, p, buddy)) == TotalSignatures(adj) + added
  {
    if buddy != p && p !in adj[buddy] {
      var mid := adj[buddy := adj[buddy] + [p]];
      TotalUpdate(adj, buddy, adj[buddy] + [p]);
      TotalUpdate(mid, p, adj[p] + [buddy]);
    }
  }

  /** Replacing one list changes the total by the difference in lengths. */
  lemma {:induction false} TotalUpdate(adj: Adjacency, k: nat, s: seq<nat>)
    requires k < |adj|
    ensures TotalSignatures(adj[k := s]) == TotalSignatures(adj) - |adj[k]| + |s|
  {
    if k == 0 {
      assert adj[k := s][1..] == adj[1..];
    } else {
      assert adj[k := s][1..] == adj[1..][k - 1 := s];
      TotalUpdate(adj[1..], k - 1, s);
    }
  }

  /** The draws of one peer keep the network reciprocal and add at most two signatures each. */
  lemma {:induction false} SignDrawsInvariant(adj: Adjacency, p: nat, buddies: seq<nat>)
    requires p < |adj| && forall j :: 0 <= j < |buddies| ==> buddies[j] < |adj|
    requires Reciprocal(adj) && TotalSignatures(adj) % 2 == 0
    ensures Reciprocal(SignDraws(adj, p, buddies))
    ensures TotalSignatures(SignDraws(adj, p, buddies)) % 2 == 0
    ensures TotalSignatures(SignDraws(adj, p, buddies)) <= TotalSignatures(adj) + 2 * |buddies|
    decreases |buddies|
  {
    if buddies != [] {
      SignPairReciprocal(adj, p, buddies[0]);
      SignPairCount(adj, p, buddies[0]);
      SignDrawsInvariant(SignPair(adj, p, buddies[0]), p, buddies[1..]);
    }
  }

  /** The number of buddies drawn by peers `p`, `p + 1`, ... */
  function DrawCount(draws: seq<seq<nat>>, p: nat): nat
    requires p <= |draws|
    decreases |draws| - p
  {
    if p == |draws| then 0 else |draws[p]| + DrawCount(draws, p + 1)
  }

  /** The draws of peers `p`, `p + 1`, ... keep the network reciprocal and add at most two signatures each. */
  lemma {:induction false} SignPeersInvariant(adj: Adjacency, draws: seq<seq<nat>>, p: nat)
    requires p <= |draws| == |adj| && DrawsInRange(draws, |adj|)
    requires Reciprocal(adj) && TotalSignatures(adj) % 2 == 0
    ensures Reciprocal(SignPeers(adj, draws, p))
    ensures TotalSignatures(SignPeers(adj, draws, p)) % 2 == 0
    ensures TotalSignatures(SignPeers(adj, draws, p)) <= TotalSignatures(adj) + 2 * DrawCount(draws, p)
    decreases |adj| - p
  {
    if p < |adj| {
      SignDrawsInvariant(adj, p, draws[p]);
      SignPeersInvariant(SignDraws(adj, p, draws[p]), draws, p + 1);
    }
  }

  /** At most `hi` draws per peer means at most `hi` draws per remaining peer. */
  lemma {:induction false} DrawCountBound(draws: seq<seq<nat>>, p: nat, hi: nat)
    requires p <= |draws| && forall q :: 0 <= q < |draws| ==> |draws[q]| <= hi
    ensures DrawCount(draws, p) <= (|draws| - p) * hi
    decreases |draws| - p
  {
    if p < |draws| {
      DrawCountBound(draws, p + 1, hi);
    }
  }

  /** A network with no signatures has none in total. */
  lemma {:induction false} TotalEmpty(n: nat)
    ensures TotalSignatures(Unsigned(n)) == 0
  {
    if n > 0 {
      assert Unsigned(n)[1..] == Unsigned(n - 1);
      TotalEmpty(n - 1);
    }
  }

  /**
   * Every network `makeg` can build is reciprocal (no self-signature, every
   * signature mirrored, no duplicate, every entry a peer) and holds an even
   * number of signatures, at most two per draw: at most `2 * n * hi` when each
   * peer draws at most `hi` buddies.
   */
  lemma NetworkProperties(n: nat, draws: seq<seq<nat>>, hi: nat)
    requires |draws| == n && DrawsInRange(draws, n)
    requires forall p :: 0 <= p < n ==> |draws[p]| <= hi
    ensures Reciprocal(Network(n, draws))
    ensures TotalSignatures(Network(n, draws)) % 2 == 0
    ensures TotalSignatures(Network(n, draws)) <= 2 * n * hi
  {
    var t := TotalSignatures(Network(n, draws));
    assert Reciprocal(Network(n, draws)) && t % 2 == 0 && t <= 2 * DrawCount(draws, 0) by {
      TotalEmpty(n);
      SignPeersInvariant(Unsigned(n), draws, 0);
    }
    var c, nh := DrawCount(draws, 0), n * hi;
    assert c <= nh by {
      DrawCountBound(draws, 0, hi);
    }
    assert 2 * n * hi == 2 * nh;
  }

  /**
   * On a symmetric network, a draw of `buddy` by `p` links exactly the pair
   * `p`, `buddy` (both ways) when they differ, and nothing else: `q` has
   * signed `t` afterwards exactly when it had before or `q`, `t` is that pair.
   */
  lemma SignPairMembers(adj: Adjacency, p: nat, buddy: nat, q: nat, t: nat)
    requires p < |adj| && buddy < |adj| && q < |adj| && Symmetric(adj)
    ensures t in SignPair(adj, p, buddy)[q] <==>
      t in adj[q] || (buddy != p && ((q == p && t == buddy) || (q == buddy && t == p)))
  {
  }

  /**
   * After peer `p`'s draws `buddies`, `q` has signed `t` exactly when it had
   * already, or one of the two is `p` and the other is a buddy it drew other
   * than itself.  The draws keep the network reciprocal.
   */
  lemma {:induction false} SignDrawsLinks(adj: Adjacency, p: nat, buddies: seq<nat>, q: nat, t: nat)
    requires p < |adj| && q < |adj| && forall j :: 0 <= j < |buddies| ==> buddies[j] < |adj|
    requires Reciprocal(adj)
    ensures Reciprocal(SignDraws(adj, p, buddies))
    ensures t in SignDraws(adj, p, buddies)[q] <==>
      t in adj[q] || (q != t && ((q == p && t in buddies) || (t == p && q in buddies)))
    decreases |buddies|
  {
    if buddies != [] {
      var b, rest := buddies[0], buddies[1..];
      var mid := SignPair(adj, p, b);
      SignPairMembers(adj, p, b, q, t);
      SignPairReciprocal(adj, p, b);
      SignDrawsLinks(mid, p, rest, q, t);
      assert buddies == [b] + rest;
      assert t in buddies <==> t == b || t in rest;
      assert q in buddies <==> q == b || q in rest;
    }
  }

  /**
   * After the draws of peers `p`, `p + 1`, ..., `q` has signed `t` exactly when
   * it had already, or the two differ and one of them, at position `p` or
   * later, drew the other.  The draws keep the network reciprocal.
   */
  lemma {:induction false} SignPeersLinks(adj: Adjacency, draws: seq<seq<nat>>, p: nat, q: nat, t: nat)
    requires p <= |draws| == |adj| && q < |adj| && DrawsInRange(draws, |adj|)
    requires Reciprocal(adj)
    ensures t in SignPeers(adj, draws, p)[q] <==>
      t in adj[q] || (q != t && ((p <= q && t in draws[q]) || (p <= t < |adj| && q in draws[t])))
    decreases |adj| - p
  {
    if p < |adj| {
      var mid := SignDraws(adj, p, draws[p]);
      SignDrawsLinks(adj, p, draws[p], q, t);
      SignPeersLinks(mid, draws, p + 1, q, t);
    }
  }

  /**
   * Who has signed whom in the network `makeg` builds: peer `p` has signed
   * peer `q` exactly when they differ and one of them drew the other.  So every
   * draw of another peer links the pair, and nothing else links two peers.
   */
  lemma NetworkLinks(n: nat, draws: seq<seq<nat>>, p: nat, q: nat)
    requires |draws| == n && DrawsInRange(draws, n) && p < n && q < n
    ensures q in Network(n, draws)[p] <==> q != p && (q in draws[p] || p in draws[q])
  {
    var empty := Unsigned(n);
    assert forall k :: 0 <= k < n ==> empty[k] == [];
    SignPeersLinks(empty, draws, 0, p, q);
  }

  /** The signature lists of the peers `g`, read off the heap. */
  function Signatures(g: seq<Pubkey>): (adj: Adjacency)
    reads set k | 0 <= k < |g| :: g[k]
  {
    seq(|g|, k requires 0 <= k < |g| reads set j | 0 <= j < |g| :: g[j] => g[k].signed)
  }

  /** Distinct peer objects: peer identity is position in the list. */
  predicate Distinct(g: seq<Pubkey>)
  {
    forall a, b :: 0 <= a < b < |g| ==> g[a] != g[b]
  }

  /** The first loop of `makeg`: `n` new peers. */
  method NewPeers(n: nat) returns (g: seq<Pubkey>)
    ensures |g| == n && Distinct(g)
    ensures forall k :: 0 <= k < n ==> fresh(g[k])
    ensures Signatures(g) == Unsigned(n)
  {
    g := [];
    while |g| < n
      invariant |g| <= n && Distinct(g)
      invariant forall k :: 0 <= k < |g| ==> fresh(g[k]) && g[k].signed == []
    {
      var peer := new Pubkey();
      g := g + [peer];
    }
  }

  /**
   * One draw of `makeg`: peer `p` drew `buddy`; unless the buddy is `p` itself
   * (compared by identity) or has already signed `p`, the buddy signs `p` and
   * `p` signs the buddy.
   */
  method SignDraw(g: seq<Pubkey>, p: nat, buddy: nat)
    requires p < |g| && buddy < |g| && Distinct(g)
    modifies set k | 0 <= k < |g| :: g[k]
    ensures Signatures(g) == SignPair(old(Signatures(g)), p, buddy)
  {
    var peer := g[p];
    assert (g[buddy] != peer) == (buddy != p);
    if g[buddy] != peer && p !in g[buddy].signed {
      g[buddy].Sign(p);
      peer.Sign(buddy);
    }
  }

  /** The inner loop of `makeg` for peer `p`, whose draws are `buddies`. */
  method SignBuddies(g: seq<Pubkey>, p: nat, buddies: seq<nat>)
    requires p < |g| && Distinct(g)
    requires forall j :: 0 <= j < |buddies| ==> buddies[j] < |g|
    modifies set k | 0 <= k < |g| :: g[k]
    ensures Signatures(g) == SignDraws(old(Signatures(g)), p, buddies)
  {
    var j := 0;
    while j < |buddies|
      invariant j <= |buddies|
      invariant SignDraws(Signatures(g), p, buddies[j..]) == SignDraws(old(Signatures(g)), p, buddies)
    {
      assert buddies[j..][1..] == buddies[j + 1..];
      SignDraw(g, p, buddies[j]);
      j := j + 1;
    }
  }

  /**
   * `makeg(n_peers, sig_range)`: create `nPeers` fresh peers; then each peer in
   * turn draws a signature count in `sigRange` and, for each, a buddy in
   * `0 .. nPeers - 1`, and the two sign each other's keys unless the buddy is
   * the peer itself or has already signed it.  The random draws are the
   * parameter `draws`: `draws[p]` lists the buddies peer `p` draws, and its
   * length is the count it drew.
   */
  method MakeG(nPeers: nat, draws: seq<seq<nat>>, sigRange: (nat, nat) := (1, 3))
    returns (g: seq<Pubkey>)
    requires |draws| == nPeers
    requires forall p :: 0 <= p < nPeers ==> sigRange.0 <= |draws[p]| <= sigRange.1
    requires DrawsInRange(draws, nPeers)
    ensures |g| == nPeers && Distinct(g)
    ensures forall p :: 0 <= p < nPeers ==> fresh(g[p])
    ensures Signatures(g) == Network(nPeers, draws)
    ensures Reciprocal(Signatures(g))
    ensures TotalSignatures(Signatures(g)) % 2 == 0
    ensures TotalSignatures(Signatures(g)) <= 2 * nPeers * sigRange.1
  {
    g := NewPeers(nPeers);
    var p := 0;
    while p < nPeers
      invariant p <= nPeers
      invariant forall k :: 0 <= k < nPeers ==> fresh(g[k])
      invariant SignPeers(Signatures(g), draws, p) == Network(nPeers, draws)
    {
      SignBuddies(g, p, draws[p]);
      p := p + 1;
    }
    NetworkProperties(nPeers, draws, sigRange.1);
  }
}
