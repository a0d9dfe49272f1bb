/** The allowed-fast set of BEP 6: which pieces a choked peer may still have,
    derived by both sides from its address, the info hash and the piece count. */
module FastSet {
  import opened Device
  import opened Distinct
  import opened BigEndian

  const MAX_ROUNDS: nat := 300

  /** Keep three octets of an address, or two below 192. */
  datatype Mask = Bep6 | Aria2

  /** Bit 7 or bit 6 of the first octet is clear: the old class A and B space. */
  predicate ClassAOrB(octet: byte) {
    (octet / 128) % 2 == 0 || (octet / 64) % 2 == 0
  }

  function Masked(mask: Mask, ip: seq<byte>): (m: seq<byte>)
    requires |ip| == 4
    ensures |m| == 4
  {
    if mask.Aria2? && ClassAOrB(ip[0]) then [ip[0], ip[1], 0, 0] else [ip[0], ip[1], ip[2], 0]
  }

  method Apply(mask: Mask, octets: array<byte>)
    requires octets.Length == 4
    modifies octets
    ensures octets[..] == Masked(mask, old(octets[..]))
  {
    match mask {
      case Bep6 => octets[3] := 0;
      case Aria2 =>
        if ClassAOrB(octets[0]) {
          octets[2] := 0;
          octets[3] := 0;
        } else {
          octets[3] := 0;
        }
    }
  }

  /** Two addresses mask alike under BEP 6 when they share their first three
      octets; under the other rule the third counts only from 192 up. */
  lemma MaskedIff(x: seq<byte>, y: seq<byte>)
    requires |x| == 4 && |y| == 4
    ensures Masked(Bep6, x) == Masked(Bep6, y) <==> x[..3] == y[..3]
    ensures Masked(Aria2, x) == Masked(Aria2, y) <==> x[..2] == y[..2] && (x[0] >= 192 ==> x[2] == y[2])
  {
    assert x[..3] == [x[0], x[1], x[2]] && y[..3] == [y[0], y[1], y[2]];
    assert x[..2] == [x[0], x[1]] && y[..2] == [y[0], y[1]];
    ClassBound(x[0]);
    ClassBound(y[0]);
    var mx, my := Masked(Aria2, x), Masked(Aria2, y);
    assert mx == my ==> mx[0] == my[0] && mx[1] == my[1] && mx[2] == my[2];
    var bx, b := Masked(Bep6, x), Masked(Bep6, y);
    assert bx == b ==> bx[0] == b[0] && bx[1] == b[1] && bx[2] == b[2];
  }

  lemma ClassBound(octet: byte)
    ensures ClassAOrB(octet) <==> octet < 192
  {
  }

  /** The two rules agree from 192.0.0.0 up, and below it on every address
      whose third octet is zero. */
  lemma AmbiguousIff(ip: seq<byte>)
    requires |ip| == 4
    ensures Masked(Bep6, ip) == Masked(Aria2, ip) <==> ip[0] >= 192 || ip[2] == 0
  {
    ClassBound(ip[0]);
    var x, y := Masked(Bep6, ip), Masked(Aria2, ip);
    assert x == y ==> x[2] == y[2];
  }

  // --- The derivation ---------------------------------------------------------------

  /** A digest of twenty bytes. */
  ghost predicate Twenty(digest: seq<byte> -> seq<byte>) {
    forall s :: |digest(s)| == 20
  }

  /** The index a big-endian word of the digest picks. */
  function Pick(d: seq<byte>, word: nat, numPieces: nat): (index: nat)
    requires |d| == 20 && word < 5 && numPieces > 0
    ensures index < numPieces
  {
    var at := word * 4;
    Value(d[at..at + 4]) % numPieces
  }

  /** The first indices one digest picks. */
  function Picks(d: seq<byte>, words: nat, numPieces: nat): (s: seq<nat>)
    requires |d| == 20 && words <= 5 && numPieces > 0
    ensures |s| == words && forall i <- s :: i < numPieces
  {
    if words == 0 then [] else Picks(d, words - 1, numPieces) + [Pick(d, words - 1, numPieces)]
  }

  /** Every index a number of rounds picks, repeats and all. */
  ghost function Stream(digest: seq<byte> -> seq<byte>, seed: seq<byte>, numPieces: nat, rounds: nat): (s: seq<nat>)
    requires Twenty(digest) && numPieces > 0
    ensures forall i <- s :: i < numPieces
    decreases rounds
  {
    if rounds == 0 then []
    else Picks(digest(seed), 5, numPieces) + Stream(digest, digest(seed), numPieces, rounds - 1)
  }

  function Take(s: seq<nat>, n: nat): (t: seq<nat>)
    ensures t <= s && |t| == if n <= |s| then n else |s|
  {
    if n <= |s| then s[..n] else s
  }

  function Counting(n: nat): (s: seq<nat>)
    ensures |s| == n && forall i | 0 <= i < n :: s[i] == i
    ensures forall i: nat :: i in s <==> i < n
  {
    if n == 0 then [] else Counting(n - 1) + [n - 1]
  }

  /** The set as a definition: the first distinct indices of the stream. */
  ghost function Allowed(digest: seq<byte> -> seq<byte>, mask: Mask, setSize: nat, numPieces: nat,
                         infoHash: seq<byte>, ip: seq<byte>): seq<nat>
    requires Twenty(digest) && |ip| == 4
  {
    if numPieces == 0 then []
    else if numPieces <= setSize then Counting(numPieces)
    else Take(Firsts(Stream(digest, Masked(mask, ip) + infoHash, numPieces, MAX_ROUNDS)), setSize)
  }

  /** One step of the search. */
  lemma TakeAdd(s: seq<nat>, x: nat, n: nat)
    requires |Firsts(s)| < n
    ensures Take(Firsts(s), n) == Firsts(s)
    ensures Take(Firsts(s + [x]), n) == if x in Firsts(s) then Firsts(s) else Firsts(s) + [x]
  {
    FirstsAdd(s, x);
  }

  /** A full set stays as it is. */
  lemma TakeFull(s: seq<nat>, t: seq<nat>, n: nat)
    requires |Firsts(s)| >= n
    ensures Take(Firsts(s + t), n) == Take(Firsts(s), n)
  {
    FirstsGrow(s, t);
  }

  lemma FirstsNone()
    ensures Firsts<nat>([]) == []
  {
  }

  method AllowedFast(digest: seq<byte> -> seq<byte>, mask: Mask, setSize: nat, numPieces: nat,
                     infoHash: seq<byte>, ip: seq<byte>) returns (out: seq<nat>)
    requires Twenty(digest) && |ip| == 4
    ensures out == Allowed(digest, mask, setSize, numPieces, infoHash, ip)
  {
    hide Firsts, Pick, Picks, Stream, Take;
    if numPieces == 0 {
      return [];
    }
    if numPieces <= setSize {
      return Counting(numPieces);
    }
    var seed := Masked(mask, ip) + infoHash;
    ghost var start := seed;
    ghost var seen: seq<nat> := [];
    out := [];
    var rounds := 0;
    FirstsNone();
    while |out| < setSize && rounds < MAX_ROUNDS
      invariant 0 <= rounds <= MAX_ROUNDS
      invariant out == Take(Firsts(seen), setSize)
      invariant |out| < setSize ==>
                  Stream(digest, start, numPieces, MAX_ROUNDS)
                  == seen + Stream(digest, seed, numPieces, MAX_ROUNDS - rounds)
      invariant seen <= Stream(digest, start, numPieces, MAX_ROUNDS)
      decreases MAX_ROUNDS - rounds
    {
      rounds := rounds + 1;
      var d := digest(seed);
      ghost var before, rest := seen, Stream(digest, d, numPieces, MAX_ROUNDS - rounds);
      StreamNext(digest, seed, numPieces, MAX_ROUNDS - rounds + 1);
      PicksWhole(before, Picks(d, 5, numPieces), rest);
      PicksNone(d, numPieces);
      for word := 0 to 5
        invariant out == Take(Firsts(seen), setSize)
        invariant seen == before + Picks(d, word, numPieces)
        invariant seen <= before + Picks(d, 5, numPieces)
      {
        if |out| >= setSize {
          break;
        }
        var index := Pick(d, word, numPieces);
        TakeAdd(seen, index, setSize);
        PicksNext(before, d, word, numPieces);
        if index !in out {
          out := out + [index];
        }
        seen := seen + [index];
      }
      seed := d;
    }
    ghost var all := Stream(digest, start, numPieces, MAX_ROUNDS);
    if |out| >= setSize {
      TakeFull(seen, all[|seen|..], setSize);
      assert seen + all[|seen|..] == all;
    } else {
      StreamNone(digest, seed, numPieces);
      assert seen + [] == seen;
    }
  }

  lemma StreamNone(digest: seq<byte> -> seq<byte>, seed: seq<byte>, numPieces: nat)
    requires Twenty(digest) && numPieces > 0
    ensures Stream(digest, seed, numPieces, 0) == []
  {
  }

  lemma StreamNext(digest: seq<byte> -> seq<byte>, seed: seq<byte>, numPieces: nat, rounds: nat)
    requires Twenty(digest) && numPieces > 0 && rounds > 0
    ensures Stream(digest, seed, numPieces, rounds)
         == Picks(digest(seed), 5, numPieces) + Stream(digest, digest(seed), numPieces, rounds - 1)
  {
  }

  lemma PicksNone(d: seq<byte>, numPieces: nat)
    requires |d| == 20 && numPieces > 0
    ensures Picks(d, 0, numPieces) == []
  {
  }

  lemma PicksNext(before: seq<nat>, d: seq<byte>, words: nat, numPieces: nat)
    requires |d| == 20 && words < 5 && numPieces > 0
    ensures before + Picks(d, words + 1, numPieces)
         == (before + Picks(d, words, numPieces)) + [Pick(d, words, numPieces)]
         <= before + Picks(d, 5, numPieces)
  {
    PicksPrefix(d, words + 1, numPieces);
  }

  lemma PicksWhole(a: seq<nat>, b: seq<nat>, c: seq<nat>)
    ensures a + (b + c) == (a + b) + c
  {
  }

  lemma {:induction false} PicksPrefix(d: seq<byte>, words: nat, numPieces: nat)
    requires |d| == 20 && words <= 5 && numPieces > 0
    ensures Picks(d, words, numPieces) <= Picks(d, 5, numPieces)
    decreases 5 - words
  {
    if words < 5 {
      PicksPrefix(d, words + 1, numPieces);
    }
  }

  // --- What the set is -----------------------------------------------------------------

  /** Distinct pieces of the torrent, no more than were asked for, and fewer
      only when the torrent or the stream has no others. */
  lemma AllowedIs(digest: seq<byte> -> seq<byte>, mask: Mask, setSize: nat, numPieces: nat,
                  infoHash: seq<byte>, ip: seq<byte>)
    requires Twenty(digest) && |ip| == 4
    ensures var allowed := Allowed(digest, mask, setSize, numPieces, infoHash, ip);
            && NoRepeats(allowed) && |allowed| <= setSize && forall i <- allowed :: i < numPieces
    ensures var allowed := Allowed(digest, mask, setSize, numPieces, infoHash, ip);
            |allowed| < setSize ==>
              (forall i: nat | i < numPieces :: i in allowed <==>
                 (numPieces <= setSize || i in Stream(digest, Masked(mask, ip) + infoHash, numPieces, MAX_ROUNDS)))
  {
    hide Firsts, Stream;
    if numPieces > setSize {
      var all := Stream(digest, Masked(mask, ip) + infoHash, numPieces, MAX_ROUNDS);
      FirstsNoRepeats(all);
      forall i: nat ensures i in Firsts(all) <==> i in all {
        FirstsMember(all, i);
      }
      var allowed := Take(Firsts(all), setSize);
      forall i | i in allowed ensures i < numPieces {
        var k :| 0 <= k < |allowed| && allowed[k] == i;
        assert Firsts(all)[k] == i && i in Firsts(all) && i in all;
      }
    }
  }

  /** Addresses that mask alike get the same set. */
  lemma AllowedByNetwork(digest: seq<byte> -> seq<byte>, setSize: nat, numPieces: nat, infoHash: seq<byte>,
                         x: seq<byte>, y: seq<byte>)
    requires Twenty(digest) && |x| == 4 && |y| == 4
    ensures x[..3] == y[..3] ==>
              Allowed(digest, Bep6, setSize, numPieces, infoHash, x)
              == Allowed(digest, Bep6, setSize, numPieces, infoHash, y)
    ensures x[..2] == y[..2] && (x[0] >= 192 ==> x[2] == y[2]) ==>
              Allowed(digest, Aria2, setSize, numPieces, infoHash, x)
              == Allowed(digest, Aria2, setSize, numPieces, infoHash, y)
    ensures x[0] >= 192 || x[2] == 0 ==>
              Allowed(digest, Bep6, setSize, numPieces, infoHash, x)
              == Allowed(digest, Aria2, setSize, numPieces, infoHash, x)
  {
    hide Masked;
    MaskedIff(x, y);
    AmbiguousIff(x);
  }

  /** The first n of the set of m are the set of n, for n <= m, exactly when
      the larger size stays below the piece count, or the smaller one reaches
      it, or the stream happens to give the first n pieces in order. */
  lemma PrefixIff(digest: seq<byte> -> seq<byte>, mask: Mask, n: nat, m: nat, numPieces: nat,
                  infoHash: seq<byte>, ip: seq<byte>)
    requires Twenty(digest) && |ip| == 4 && n <= m
    ensures Allowed(digest, mask, n, numPieces, infoHash, ip)
            == Take(Allowed(digest, mask, m, numPieces, infoHash, ip), n)
            <==> (m < numPieces || numPieces <= n
                  || Take(Firsts(Stream(digest, Masked(mask, ip) + infoHash, numPieces, MAX_ROUNDS)), n) == Counting(n))
  {
    hide Firsts, Stream, Masked;
    if numPieces <= n {
      assert |Counting(numPieces)| <= n;
    } else if numPieces <= m {
      var all := Counting(numPieces);
      assert Take(all, n) == Counting(n);
    }
  }

  /** The digest that says 1, five times over. */
  function Ones(s: seq<byte>): (d: seq<byte>)
    ensures |d| == 20
  {
    [0, 0, 0, 1, 0, 0, 0, 1, 0, 0, 0, 1, 0, 0, 0, 1, 0, 0, 0, 1]
  }

  lemma OnesPick(seed: seq<byte>)
    ensures Picks(Ones(seed), 5, 2)[0] == 1
  {
    var d := Ones(seed);
    assert d[0..4] == [0, 0, 0, 1];
    PicksPrefix(d, 1, 2);
    assert Picks(d, 1, 2) == [1];
  }

  /** The shortcut for a small torrent breaks it: of two pieces, a set of one
      is piece 1, and a set of two starts with piece 0. */
  lemma ShortcutBreaksPrefix(infoHash: seq<byte>, ip: seq<byte>)
    requires |ip| == 4
    ensures Twenty(Ones)
    ensures Allowed(Ones, Bep6, 1, 2, infoHash, ip) == [1]
    ensures Allowed(Ones, Bep6, 2, 2, infoHash, ip) == [0, 1]
    ensures [1] != Take([0, 1], 1)
  {
    hide Firsts, Stream, Picks;
    var seed := Masked(Bep6, ip) + infoHash;
    var all := Stream(Ones, seed, 2, MAX_ROUNDS);
    OnesPick(seed);
    StreamNext(Ones, seed, 2, MAX_ROUNDS);
    FirstsAdd<nat>([], 1);
    FirstsNone();
    assert [] + [1] == [1] && all == [1] + all[1..];
    TakeFull([1], all[1..], 1);
  }

  // --- The stream, pick by pick ----------------------------------------------------------

  /** The digest of a digest, a number of times over. */
  function Again(digest: seq<byte> -> seq<byte>, seed: seq<byte>, times: nat): seq<byte>
    decreases times
  {
    if times == 0 then seed else digest(Again(digest, seed, times - 1))
  }

  lemma {:induction false} AgainNext(digest: seq<byte> -> seq<byte>, seed: seq<byte>, times: nat)
    ensures Again(digest, digest(seed), times) == Again(digest, seed, times + 1)
  {
    if times > 0 {
      AgainNext(digest, seed, times - 1);
    }
  }

  /** Four bytes as a number, the first weighing most. */
  function Word(d: seq<byte>, at: nat): nat
    requires at + 4 <= |d|
  {
    16777216 * d[at] as nat + 65536 * d[at + 1] as nat + 256 * d[at + 2] as nat + d[at + 3] as nat
  }

  lemma PickIs(d: seq<byte>, word: nat, numPieces: nat)
    requires |d| == 20 && word < 5 && numPieces > 0
    ensures Pick(d, word, numPieces) == Word(d, 4 * word) % numPieces
  {
    var at := word * 4;
    WordIs(d[at], d[at + 1], d[at + 2], d[at + 3]);
    assert d[at..at + 4] == [d[at], d[at + 1], d[at + 2], d[at + 3]];
  }

  lemma {:induction false} PicksAt(d: seq<byte>, words: nat, numPieces: nat, k: nat)
    requires |d| == 20 && k < words <= 5 && numPieces > 0
    ensures Picks(d, words, numPieces)[k] == Word(d, 4 * k) % numPieces
  {
    hide Pick;
    if k == words - 1 {
      PickIs(d, k, numPieces);
    } else {
      PicksAt(d, words - 1, numPieces, k);
    }
  }

  lemma StreamRound(digest: seq<byte> -> seq<byte>, seed: seq<byte>, numPieces: nat, rounds: nat, k: nat)
    requires Twenty(digest) && numPieces > 0 && rounds > 0
    requires |Stream(digest, digest(seed), numPieces, rounds - 1)| == 5 * (rounds - 1)
    ensures |Stream(digest, seed, numPieces, rounds)| == 5 * rounds
    ensures k < 5 * rounds ==>
              Stream(digest, seed, numPieces, rounds)[k]
              == if k < 5 then Word(digest(seed), 4 * k) % numPieces
                 else Stream(digest, digest(seed), numPieces, rounds - 1)[k - 5]
  {
    if k < 5 {
      PicksAt(digest(seed), 5, numPieces, k);
    }
  }

  /** Each round picks five pieces by the words of the digest, in order, and
      takes the digest of the digest for the next. */
  lemma {:induction false} StreamAt(
      digest: seq<byte> -> seq<byte>, seed: seq<byte>, numPieces: nat, rounds: nat, round: nat, word: nat)
    requires Twenty(digest) && numPieces > 0 && word < 5 && round < rounds
    ensures |Stream(digest, seed, numPieces, rounds)| == 5 * rounds
    ensures Stream(digest, seed, numPieces, rounds)[5 * round + word]
            == Word(Again(digest, seed, round + 1), 4 * word) % numPieces
    decreases rounds
  {
    hide Stream, Picks;
    StreamSize(digest, digest(seed), numPieces, rounds - 1);
    StreamRound(digest, seed, numPieces, rounds, 5 * round + word);
    if round == 0 {
      AgainNext(digest, seed, 0);
      assert Again(digest, seed, 0) == seed;
    } else {
      StreamAt(digest, digest(seed), numPieces, rounds - 1, round - 1, word);
      AgainNext(digest, seed, round);
    }
  }

  lemma {:induction false} StreamSize(digest: seq<byte> -> seq<byte>, seed: seq<byte>, numPieces: nat, rounds: nat)
    requires Twenty(digest) && numPieces > 0
    ensures |Stream(digest, seed, numPieces, rounds)| == 5 * rounds
    decreases rounds
  {
    if rounds > 0 {
      StreamSize(digest, digest(seed), numPieces, rounds - 1);
    }
  }

  /** The search gives up after 1500 picks. */
  lemma StreamWhole(digest: seq<byte> -> seq<byte>, seed: seq<byte>, numPieces: nat)
    requires Twenty(digest) && numPieces > 0
    ensures |Stream(digest, seed, numPieces, MAX_ROUNDS)| == 1500
  {
    StreamSize(digest, seed, numPieces, MAX_ROUNDS);
  }

  /** The first piece of a set that is smaller than the torrent: the first word
      of the digest of the network of the address, a zero octet, and the hash. */
  lemma FirstAllowed(digest: seq<byte> -> seq<byte>, setSize: nat, numPieces: nat, infoHash: seq<byte>, ip: seq<byte>)
    requires Twenty(digest) && |ip| == 4 && 0 < setSize < numPieces
    ensures var allowed := Allowed(digest, Bep6, setSize, numPieces, infoHash, ip);
            |allowed| > 0 && allowed[0] == Word(digest([ip[0], ip[1], ip[2], 0] + infoHash), 0) % numPieces
  {
    hide Firsts, Stream;
    var seed := [ip[0], ip[1], ip[2], 0] + infoHash;
    var all := Stream(digest, seed, numPieces, MAX_ROUNDS);
    StreamAt(digest, seed, numPieces, MAX_ROUNDS, 0, 0);
    assert Again(digest, seed, 1) == digest(Again(digest, seed, 0)) == digest(seed);
    FirstsNone();
    FirstsAdd<nat>([], all[0]);
    assert [] + [all[0]] == [all[0]] && all == [all[0]] + all[1..];
    FirstsGrow([all[0]], all[1..]);
  }
}
