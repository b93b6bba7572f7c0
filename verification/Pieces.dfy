/** A byte stream as a port delivers it: cut into pieces at arbitrary places. */
module Pieces {
  function Concat<T>(pieces: seq<seq<T>>): seq<T> {
    if pieces == [] then [] else pieces[0] + Concat(pieces[1..])
  }

  lemma AppendAssoc<T>(a: seq<T>, b: seq<T>, c: seq<T>)
    ensures a + b + c == a + (b + c)
  {
  }

  /** How many bytes the buffer holds after the piece with which it holds at least n, or after all. */
  function SizeWhenComplete<T>(have: nat, pieces: seq<seq<T>>, n: nat): nat
    decreases |pieces|
  {
    if pieces == [] || have >= n then have else SizeWhenComplete(have + |pieces[0]|, pieces[1..], n)
  }

  lemma {:induction false} SizeGrows<T>(have: nat, pieces: seq<seq<T>>, n: nat)
    ensures SizeWhenComplete(have, pieces, n) >= have
    decreases |pieces|
  {
    if pieces != [] {
      SizeGrows(have + |pieces[0]|, pieces[1..], n);
    }
  }

  lemma {:induction false} SizeOfWhole<T>(have: nat, pieces: seq<seq<T>>, n: nat)
    requires have + |Concat(pieces)| == n
    ensures SizeWhenComplete(have, pieces, n) == n
    decreases |pieces|
  {
    if pieces != [] {
      SizeOfWhole(have + |pieces[0]|, pieces[1..], n);
    }
  }

  lemma JoinedIsWhole<T>(a: seq<T>, b: seq<T>, s: seq<T>)
    requires s == a + b
    ensures |s| == |a| + |b| && a + b <= s
  {
  }

  lemma SizeStep<T>(have: nat, pieces: seq<seq<T>>, n: nat)
    requires pieces != [] && have < n
    ensures var more := have + |pieces[0]|;
            && SizeWhenComplete(have, pieces, n) == SizeWhenComplete(more, pieces[1..], n)
            && SizeWhenComplete(have, pieces, n) >= more
            && (more >= n ==> SizeWhenComplete(have, pieces, n) == more)
  {
    SizeGrows(have + |pieces[0]|, pieces[1..], n);
  }

  lemma NextBuffer<T>(stream: seq<T>, buf: seq<T>, pieces: seq<seq<T>>)
    requires stream == buf + Concat(pieces) && |buf| < |stream|
    ensures pieces != []
    ensures stream == (buf + pieces[0]) + Concat(pieces[1..]) && buf + pieces[0] <= stream
    ensures pieces[0] == [] ==> buf + pieces[0] == buf
  {
    AppendAssoc(buf, pieces[0], Concat(pieces[1..]));
  }
}
