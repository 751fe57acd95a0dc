/** What nested loops over two streams of tuples deliver, and how far they get. */
module JoinStreams {
  /** The matches of one left tuple with the first `j` right tuples. */
  ghost function RowMatches<L, R>(l: L, rs: seq<R>, test: (L, R) -> bool, j: nat): seq<(L, R)>
    requires j <= |rs|
  {
    if j == 0 then [] else RowMatches(l, rs, test, j - 1) + if test(l, rs[j - 1]) then [(l, rs[j - 1])] else []
  }

  /** The matches of the first `i` left tuples with all right tuples, left-major. */
  ghost function Matches<L, R>(ls: seq<L>, rs: seq<R>, test: (L, R) -> bool, i: nat): seq<(L, R)>
    requires i <= |ls|
  {
    if i == 0 then [] else Matches(ls, rs, test, i - 1) + RowMatches(ls[i - 1], rs, test, |rs|)
  }

  /** The matches found before the pair `(i, j)`. */
  ghost function Found<L, R>(ls: seq<L>, rs: seq<R>, test: (L, R) -> bool, i: nat, j: nat): seq<(L, R)>
    requires i <= |ls| && j <= |rs|
  {
    Matches(ls, rs, test, i) + if i < |ls| then RowMatches(ls[i], rs, test, j) else []
  }

  ghost predicate Prefix<T>(a: seq<T>, b: seq<T>) {
    |a| <= |b| && b[..|a|] == a
  }

  lemma {:induction false} RowPrefix<L, R>(l: L, rs: seq<R>, test: (L, R) -> bool, j: nat, k: nat)
    requires j <= k <= |rs|
    ensures Prefix(RowMatches(l, rs, test, j), RowMatches(l, rs, test, k))
  {
    if j < k { RowPrefix(l, rs, test, j, k - 1); }
  }

  lemma {:induction false} MatchesPrefix<L, R>(ls: seq<L>, rs: seq<R>, test: (L, R) -> bool, i: nat, k: nat)
    requires i <= k <= |ls|
    ensures Prefix(Matches(ls, rs, test, i), Matches(ls, rs, test, k))
  {
    if i < k { MatchesPrefix(ls, rs, test, i, k - 1); }
  }

  lemma FoundPrefix<L, R>(ls: seq<L>, rs: seq<R>, test: (L, R) -> bool, i: nat, j: nat)
    requires i <= |ls| && j <= |rs|
    ensures Prefix(Found(ls, rs, test, i, j), Matches(ls, rs, test, |ls|))
  {
    hide Matches, RowMatches;
    if i < |ls| {
      var a, b, c := Found(ls, rs, test, i, j), Matches(ls, rs, test, i + 1), Matches(ls, rs, test, |ls|);
      RowPrefix(ls[i], rs, test, j, |rs|);
      MatchesNext(ls, rs, test, i);
      assert b[..|a|] == a;
      MatchesPrefix(ls, rs, test, i + 1, |ls|);
      assert c[..|a|] == c[..|b|][..|a|];
    }
  }

  lemma MatchesNext<L, R>(ls: seq<L>, rs: seq<R>, test: (L, R) -> bool, i: nat)
    requires i < |ls|
    ensures Matches(ls, rs, test, i + 1) == Matches(ls, rs, test, i) + RowMatches(ls[i], rs, test, |rs|)
  {
  }

  /** Consuming one pair. */
  lemma FoundNext<L, R>(ls: seq<L>, rs: seq<R>, test: (L, R) -> bool, i: nat, j: nat)
    requires i < |ls| && j < |rs|
    ensures Found(ls, rs, test, i, j + 1)
         == Found(ls, rs, test, i, j) + if test(ls[i], rs[j]) then [(ls[i], rs[j])] else []
    ensures Found(ls, rs, test, i, |rs|) == Found(ls, rs, test, i + 1, 0)
  {
  }

  lemma EmptyProduct<L, R>(ls: seq<L>, rs: seq<R>, test: (L, R) -> bool)
    requires ls == [] || rs == []
    ensures Matches(ls, rs, test, |ls|) == []
  {
    if rs == [] { NoRight(ls, rs, test, |ls|); }
  }

  lemma {:induction false} NoRight<L, R>(ls: seq<L>, rs: seq<R>, test: (L, R) -> bool, i: nat)
    requires rs == [] && i <= |ls|
    ensures Matches(ls, rs, test, i) == []
  {
    if i > 0 { NoRight(ls, rs, test, i - 1); }
  }

  lemma NothingFound<L, R>(ls: seq<L>, rs: seq<R>, test: (L, R) -> bool)
    ensures Found(ls, rs, test, 0, 0) == []
  {
  }

  lemma LastFound<L, R>(ls: seq<L>, rs: seq<R>, test: (L, R) -> bool)
    ensures forall j :: 0 <= j <= |rs| ==> Found(ls, rs, test, |ls|, j) == Matches(ls, rs, test, |ls|)
  {
  }

  // Streams

  /** What an executor delivers when it is begun and pulled: its rows, and then the end or a
      crash. The rows of a join can be read only once each, since `Next` moves them out. */
  datatype Stream<T> = Stream(rows: seq<T>, crashes: bool, once: bool)

  /** `beginTuple`, which looks for the first row, crashes. */
  ghost predicate BeginFails<T>(s: Stream<T>) {
    s.rows == [] && s.crashes
  }

  /** The pair at which the nested loops stop. With a second inner row they read an outer row
      twice; with a second outer row they begin the inner child again. A pair is tested after
      the next row has been pulled, so that a crash of a child comes before its last pair. */
  ghost function Limit<T>(l: Stream<T>, r: Stream<T>): (p: (nat, nat))
    requires l.rows != [] && r.rows != []
    ensures p.0 <= |l.rows| && p.1 < |r.rows| && (p.0 == |l.rows| ==> p.1 == 0)
  {
    if l.once && 2 <= |r.rows| then (0, 1)
    else if r.crashes then (0, |r.rows| - 1)
    else if r.once && 2 <= |l.rows| then (1, 0)
    else if l.crashes then (|l.rows| - 1, |r.rows| - 1)
    else (|l.rows|, 0)
  }

  ghost predicate Upto(i: nat, j: nat, p: (nat, nat)) {
    i < p.0 || (i == p.0 && j <= p.1)
  }

  function Records<T>(pairs: seq<(T, T)>, make: (T, T) -> T): (r: seq<T>)
    ensures |r| == |pairs| && forall i :: 0 <= i < |pairs| ==> r[i] == make(pairs[i].0, pairs[i].1)
  {
    seq(|pairs|, i requires 0 <= i < |pairs| => make(pairs[i].0, pairs[i].1))
  }

  /** The stream of a join, from those of its outer and its inner child. */
  ghost function JoinOut<T>(l: Stream<T>, r: Stream<T>, make: (T, T) -> T, test: (T, T) -> bool): Stream<T> {
    if BeginFails(l) || BeginFails(r) then Stream([], true, true)
    else if l.rows == [] || r.rows == [] then Stream([], false, true)
    else
      var (i, j) := Limit(l, r);
      Stream(Records(Found(l.rows, r.rows, test, i, j), make), i < |l.rows|, true)
  }

  /** Why the loops stop at a pair: the outer row has been read, the inner child has been
      begun again, or a child crashes. */
  lemma LimitIff<T>(l: Stream<T>, r: Stream<T>, i: nat, j: nat)
    requires (l.crashes ==> l.once) && (r.crashes ==> r.once) && i < |l.rows| && j < |r.rows|
    requires Upto(i, j, Limit(l, r))
    ensures (i, j) == Limit(l, r) <==>
            || (l.once && 0 < j) || (r.once && 0 < i)
            || (j + 1 == |r.rows| && (r.crashes || (l.crashes && i + 1 == |l.rows|)))
  {
  }

  lemma UptoNext<T>(l: Stream<T>, r: Stream<T>, i: nat, j: nat)
    requires i < |l.rows| && j < |r.rows| && Upto(i, j, Limit(l, r)) && (i, j) != Limit(l, r)
    ensures if j + 1 < |r.rows| then Upto(i, j + 1, Limit(l, r)) else Upto(i + 1, 0, Limit(l, r))
  {
  }

  lemma FoundUpto<L, R>(ls: seq<L>, rs: seq<R>, test: (L, R) -> bool, i: nat, j: nat, p: (nat, nat))
    requires i <= |ls| && j <= |rs| && p.0 <= |ls| && p.1 <= |rs| && Upto(i, j, p)
    ensures Prefix(Found(ls, rs, test, i, j), Found(ls, rs, test, p.0, p.1))
  {
    hide Matches, RowMatches;
    if i == p.0 {
      if i < |ls| { RowPrefix(ls[i], rs, test, j, p.1); }
      assert Matches(ls, rs, test, i) + (if i < |ls| then RowMatches(ls[i], rs, test, j) else []) ==
             Found(ls, rs, test, i, j);
    } else {
      var a, b, c := Found(ls, rs, test, i, j), Matches(ls, rs, test, i + 1), Matches(ls, rs, test, p.0);
      RowPrefix(ls[i], rs, test, j, |rs|);
      MatchesNext(ls, rs, test, i);
      assert b[..|a|] == a;
      MatchesPrefix(ls, rs, test, i + 1, p.0);
      assert c[..|a|] == c[..|b|][..|a|];
      assert Found(ls, rs, test, p.0, p.1)[..|c|] == c;
      assert Found(ls, rs, test, p.0, p.1)[..|a|] == c[..|a|];
    }
  }

  // What the stream of a join is

  /** When a join crashes: a child crashes where it is pulled, an outer join would have to be
      read for a second inner row, or an inner join begun again for a second outer row. */
  lemma JoinCrashes<T>(l: Stream<T>, r: Stream<T>, make: (T, T) -> T, test: (T, T) -> bool)
    ensures JoinOut(l, r, make, test).crashes <==>
            || BeginFails(l) || BeginFails(r)
            || (l.rows != [] && r.rows != []
                && (l.crashes || r.crashes || (l.once && 2 <= |r.rows|) || (r.once && 2 <= |l.rows|)))
  {
  }

  /** The stream is the beginning of these rows, and all of them unless it crashes. */
  ghost predicate Delivers<T>(s: Stream<T>, rows: seq<T>) {
    Prefix(s.rows, rows) && (!s.crashes ==> s.rows == rows)
  }

  lemma {:induction false} RowAgrees<L, R>(l: L, rs: seq<R>, rs': seq<R>, test: (L, R) -> bool, j: nat)
    requires j <= |rs| && j <= |rs'| && rs[..j] == rs'[..j]
    ensures RowMatches(l, rs, test, j) == RowMatches(l, rs', test, j)
  {
    if j > 0 {
      assert rs[..j - 1] == rs[..j][..j - 1] && rs'[..j - 1] == rs'[..j][..j - 1];
      assert rs[j - 1] == rs[..j][j - 1] && rs'[j - 1] == rs'[..j][j - 1];
      RowAgrees(l, rs, rs', test, j - 1);
    }
  }

  lemma {:induction false} MatchesAgree<L, R>(ls: seq<L>, ls': seq<L>, rs: seq<R>, test: (L, R) -> bool, i: nat)
    requires i <= |ls| && i <= |ls'| && ls[..i] == ls'[..i]
    ensures Matches(ls, rs, test, i) == Matches(ls', rs, test, i)
  {
    if i > 0 {
      assert ls[..i - 1] == ls[..i][..i - 1] && ls'[..i - 1] == ls'[..i][..i - 1];
      assert ls[i - 1] == ls[..i][i - 1] && ls'[i - 1] == ls'[..i][i - 1];
      MatchesAgree(ls, ls', rs, test, i - 1);
    }
  }

  lemma RecordsPrefix<T>(a: seq<(T, T)>, b: seq<(T, T)>, make: (T, T) -> T)
    requires Prefix(a, b)
    ensures Prefix(Records(a, make), Records(b, make))
  {
  }

  /** A join whose children deliver `ls` and `rs` delivers their filtered product. */
  lemma JoinDelivers<T>(l: Stream<T>, ls: seq<T>, r: Stream<T>, rs: seq<T>, make: (T, T) -> T, test: (T, T) -> bool)
    requires Delivers(l, ls) && Delivers(r, rs)
    ensures Delivers(JoinOut(l, r, make, test), Records(Matches(ls, rs, test, |ls|), make))
  {
    hide Matches, Records;
    if l.rows == [] || r.rows == [] {
      if !BeginFails(l) && !BeginFails(r) { EmptyProduct(ls, rs, test); }
      assert Records<T>([], make) == [];
    } else {
      var (i, j) := Limit(l, r);
      LimitFound(l, ls, r, rs, test);
      FoundPrefix(ls, rs, test, i, j);
      if i == |l.rows| { LastFound(ls, rs, test); }
      RecordsPrefix(Found(ls, rs, test, i, j), Matches(ls, rs, test, |ls|), make);
    }
  }

  lemma LimitFound<T>(l: Stream<T>, ls: seq<T>, r: Stream<T>, rs: seq<T>, test: (T, T) -> bool)
    requires Delivers(l, ls) && Delivers(r, rs) && l.rows != [] && r.rows != []
    ensures var (i, j) := Limit(l, r);
            i <= |ls| && j <= |rs| && Found(l.rows, r.rows, test, i, j) == Found(ls, rs, test, i, j)
  {
    hide Matches, RowMatches;
    var (i, j) := Limit(l, r);
    MatchesAgree(l.rows, ls, rs, test, i);
    RowAgrees(ls[0], r.rows, rs, test, j);
    if i == 0 {
      NoneMatched(l.rows, r.rows, test);
      NoneMatched(ls, rs, test);
    } else if i < |l.rows| {
      RowAgrees(ls[i], r.rows, rs, test, j);
    }
  }

  lemma NoneMatched<L, R>(ls: seq<L>, rs: seq<R>, test: (L, R) -> bool)
    ensures Matches(ls, rs, test, 0) == []
  {
  }
}
