/**
 Backtracking regular expressions as ECMAScript runs them: `Ends` lists the positions where a match
 that starts at `i` may end, in the order in which the matcher would try them, and `Matches` is the
 global search, leftmost and without overlaps.
 */
module Regex {
  import opened Basics

  datatype Regex =
    | One(has: char -> bool)
    | Empty
    | Then(first: Regex, second: Regex)
    | Or(first: Regex, second: Regex)
    | Star(body: Regex, greedy: bool)
    | Behind(has: char -> bool)
    | Ahead(has: char -> bool)
    | Boundary(word: char -> bool)
    | AtEnd

  function Plus(r: Regex): Regex {
    Then(r, Star(r, true))
  }

  function Optional(r: Regex): Regex {
    Or(r, Empty)
  }

  predicate HasAt(has: char -> bool, s: string, i: int) {
    0 <= i < |s| && has(s[i])
  }

  /** The positions greater than `i`, in order: an iteration that matches nothing is not repeated. */
  function Progress(ends: seq<nat>, i: nat): (r: seq<nat>)
    ensures forall e | e in r :: e in ends && i < e
  {
    if ends == [] then []
    else if ends[0] > i then [ends[0]] + Progress(ends[1..], i)
    else Progress(ends[1..], i)
  }

  /** Where a match that starts at `i` may end, in order of preference. */
  function Ends(r: Regex, s: string, i: nat): (ends: seq<nat>)
    requires i <= |s|
    ensures forall e | e in ends :: i <= e <= |s|
    decreases r, |s| - i, 0
  {
    match r
    case One(has) => if HasAt(has, s, i) then [i + 1] else []
    case Empty => [i]
    case Then(a, b) => EndsAll(b, s, i, Ends(a, s, i))
    case Or(a, b) => Ends(a, s, i) + Ends(b, s, i)
    case Star(body, greedy) =>
      var starts := Progress(Ends(body, s, i), i);
      var more := if i < |s| then EndsAll(r, s, i + 1, starts) else [];
      if greedy then more + [i] else [i] + more
    case Behind(has) => if HasAt(has, s, i - 1) then [i] else []
    case Ahead(has) => if HasAt(has, s, i) then [i] else []
    case Boundary(word) => if HasAt(word, s, i - 1) != HasAt(word, s, i) then [i] else []
    case AtEnd => if i == |s| then [i] else []
  }

  function EndsAll(r: Regex, s: string, low: nat, starts: seq<nat>): (ends: seq<nat>)
    requires low <= |s| && forall e | e in starts :: low <= e <= |s|
    ensures forall e | e in ends :: low <= e <= |s|
    decreases r, |s| - low, 1, |starts|
  {
    if starts == [] then []
    else
      assert starts[0] in starts && forall e | e in starts[1..] :: e in starts;
      Ends(r, s, starts[0]) + EndsAll(r, s, low, starts[1..])
  }

  function MatchAt(r: Regex, s: string, i: nat): (end: Option<nat>)
    requires i <= |s|
    ensures end.Some? ==> i <= end.value <= |s|
  {
    var ends := Ends(r, s, i);
    if ends == [] then None
    else
      assert ends[0] in ends;
      Some(ends[0])
  }

  /** Ranges in order within [from, to], without overlaps. */
  predicate Spaced(ranges: seq<(nat, nat)>, from: nat, to: nat) {
    ranges != [] ==> from <= ranges[0].0 <= ranges[0].1 <= to && Spaced(ranges[1..], ranges[0].1, to)
  }

  /** The matches of a global search from `i` on; after an empty match the search moves on by one. */
  function Matches(r: Regex, s: string, i: nat): (ranges: seq<(nat, nat)>)
    requires i <= |s|
    ensures Spaced(ranges, i, |s|)
    decreases |s| - i
  {
    match MatchAt(r, s, i)
    case Some(end) => [(i, end)] + (if end > i then Matches(r, s, end) else if i < |s| then Matches(r, s, i + 1)
      else [])
    case None => if i < |s| then Matches(r, s, i + 1) else []
  }

  // Scanning for a character

  /** The first position at or after `i` whose character is in the class, or the length. */
  function First(has: char -> bool, s: string, i: nat): (r: nat)
    requires i <= |s|
    ensures i <= r <= |s| && (r < |s| ==> has(s[r])) && forall k | i <= k < r :: !has(s[k])
    decreases |s| - i
  {
    if i == |s| || has(s[i]) then i else First(has, s, i + 1)
  }

  function Not(has: char -> bool): char -> bool {
    c => !has(c)
  }

  function Is(x: char): char -> bool {
    c => c == x
  }

  /** stop, stop - 1, ..., i */
  function Down(stop: nat, i: nat): (r: seq<nat>)
    requires i <= stop
    ensures forall e | e in r :: i <= e <= stop
    ensures r != [] && r[0] == stop
    decreases stop - i
  {
    if stop == i then [i] else [stop] + Down(stop - 1, i)
  }

  lemma {:induction false} DownUp(stop: nat, i: nat)
    requires i < stop
    ensures Down(stop, i) == Down(stop, i + 1) + [i]
    decreases stop - i
  {
    if stop > i + 1 {
      DownUp(stop - 1, i);
    }
  }

  lemma GreedyTurn(has: char -> bool, s: string, i: nat)
    requires i <= |s|
    ensures Ends(Star(One(has), true), s, i)
            == if HasAt(has, s, i) then Ends(Star(One(has), true), s, i + 1) + [i] else [i]
  {
    var r := Star(One(has), true);
    if HasAt(has, s, i) {
      assert Ends(One(has), s, i) == [i + 1] && Progress([i + 1], i) == [i + 1];
      OneStart(r, s, i + 1, i + 1);
    } else {
      assert Ends(One(has), s, i) == [] && Progress([], i) == [];
    }
  }

  /** A greedy star over a class tries the longest stretch first, then gives characters back one by one. */
  lemma {:induction false} GreedyClass(has: char -> bool, s: string, i: nat)
    requires i <= |s|
    ensures Ends(Star(One(has), true), s, i) == Down(First(Not(has), s, i), i)
    decreases |s| - i
  {
    hide Ends;
    GreedyTurn(has, s, i);
    if HasAt(has, s, i) {
      GreedyClass(has, s, i + 1);
      DownUp(First(Not(has), s, i), i);
    }
  }

  /** When `r` fails on everything given back, only the longest stretch counts. */
  lemma {:induction false} OnlyAtStop(r: Regex, s: string, low: nat, i: nat, stop: nat)
    requires low <= i <= stop <= |s| && forall k | i <= k < stop :: Ends(r, s, k) == []
    ensures EndsAll(r, s, low, Down(stop, i)) == Ends(r, s, stop)
    decreases stop - i
  {
    hide Ends;
    if stop > i {
      AllFail(r, s, low, i, stop - 1);
      assert Down(stop, i)[1..] == Down(stop - 1, i);
    } else {
      OneStart(r, s, low, stop);
    }
  }

  lemma {:induction false} AllFail(r: Regex, s: string, low: nat, i: nat, stop: nat)
    requires low <= i <= stop <= |s| && forall k | i <= k <= stop :: Ends(r, s, k) == []
    ensures EndsAll(r, s, low, Down(stop, i)) == []
    decreases stop - i
  {
    hide Ends;
    if stop > i {
      AllFail(r, s, low, i, stop - 1);
      assert Down(stop, i)[1..] == Down(stop - 1, i);
    } else {
      OneStart(r, s, low, stop);
    }
  }

  lemma OneStart(r: Regex, s: string, low: nat, e: nat)
    requires low <= e <= |s|
    ensures EndsAll(r, s, low, [e]) == Ends(r, s, e)
  {
    hide Ends;
    assert EndsAll(r, s, low, [e]) == Ends(r, s, e) + EndsAll(r, s, low, []);
  }

  /** A literal character in front. */
  lemma ThenOne(has: char -> bool, r: Regex, s: string, i: nat)
    requires i <= |s|
    ensures Ends(Then(One(has), r), s, i) == if HasAt(has, s, i) then Ends(r, s, i + 1) else []
  {
    if HasAt(has, s, i) {
      OneStart(r, s, i, i + 1);
    }
  }

  /** A class repeated, then something that starts outside the class: the delimiter decides. */
  lemma Delimited(has: char -> bool, after: char -> bool, rest: Regex, s: string, i: nat)
    requires i <= |s| && forall c | has(c) :: !after(c)
    ensures var stop := First(Not(has), s, i);
            Ends(Then(Star(One(has), true), Then(One(after), rest)), s, i)
            == if HasAt(after, s, stop) then Ends(rest, s, stop + 1) else []
  {
    hide Ends, EndsAll, Down;
    var r, stop := Then(One(after), rest), First(Not(has), s, i);
    ThenEnds(Star(One(has), true), r, s, i);
    GreedyClass(has, s, i);
    forall k | i <= k < stop ensures Ends(r, s, k) == [] {
      ThenOne(after, rest, s, k);
    }
    OnlyAtStop(r, s, i, i, stop);
    ThenOne(after, rest, s, stop);
  }

  /** The same with nothing after the delimiter. */
  lemma DelimitedOne(has: char -> bool, after: char -> bool, s: string, i: nat)
    requires i <= |s| && forall c | has(c) :: !after(c)
    ensures var stop := First(Not(has), s, i);
            Ends(Then(Star(One(has), true), One(after)), s, i) == if HasAt(after, s, stop) then [stop + 1] else []
  {
    hide Ends, EndsAll, Down;
    var stop := First(Not(has), s, i);
    ThenEnds(Star(One(has), true), One(after), s, i);
    GreedyClass(has, s, i);
    forall k | i <= k < stop ensures Ends(One(after), s, k) == [] {
      OneEnds(after, s, k);
    }
    OnlyAtStop(One(after), s, i, i, stop);
    OneEnds(after, s, stop);
  }

  /** One or more of a class: the longest stretch comes first. */
  lemma PlusClass(has: char -> bool, s: string, i: nat)
    requires i <= |s|
    ensures Ends(Plus(One(has)), s, i) == if HasAt(has, s, i) then Down(First(Not(has), s, i + 1), i + 1) else []
  {
    ThenOne(has, Star(One(has), true), s, i);
    if HasAt(has, s, i) {
      GreedyClass(has, s, i + 1);
    }
  }

  lemma ThenBoundary(word: char -> bool, r: Regex, s: string, i: nat)
    requires i <= |s|
    ensures Ends(Then(Boundary(word), r), s, i) == if HasAt(word, s, i - 1) != HasAt(word, s, i) then Ends(r, s, i)
            else []
  {
    if HasAt(word, s, i - 1) != HasAt(word, s, i) {
      OneStart(r, s, i, i);
    }
  }

  lemma EitherEnds(a: Regex, b: Regex, s: string, i: nat)
    requires i <= |s|
    ensures Ends(Or(a, b), s, i) == Ends(a, s, i) + Ends(b, s, i)
  {
  }

  lemma ThenBehind(has: char -> bool, r: Regex, s: string, i: nat)
    requires i <= |s|
    ensures Ends(Then(Behind(has), r), s, i) == if HasAt(has, s, i - 1) then Ends(r, s, i) else []
  {
    if HasAt(has, s, i - 1) {
      OneStart(r, s, i, i);
    }
  }

  lemma ThenEnds(a: Regex, b: Regex, s: string, i: nat)
    requires i <= |s|
    ensures Ends(Then(a, b), s, i) == EndsAll(b, s, i, Ends(a, s, i))
    ensures Ends(a, s, i) == [] ==> Ends(Then(a, b), s, i) == []
  {
  }

  lemma OneEnds(has: char -> bool, s: string, i: nat)
    requires i <= |s|
    ensures Ends(One(has), s, i) == if HasAt(has, s, i) then [i + 1] else []
  {
  }

  /** One or more of a class, then one character outside it. */
  lemma PlusDelimited(has: char -> bool, after: char -> bool, s: string, i: nat)
    requires i <= |s| && forall c | has(c) :: !after(c)
    ensures Ends(Then(Plus(One(has)), One(after)), s, i)
            == if HasAt(has, s, i) && HasAt(after, s, First(Not(has), s, i + 1)) then [First(Not(has), s, i + 1) + 1]
              else []
  {
    hide Ends, EndsAll, Down;
    PlusClass(has, s, i);
    ThenEnds(Plus(One(has)), One(after), s, i);
    if HasAt(has, s, i) {
      var stop := First(Not(has), s, i + 1);
      forall k | i + 1 <= k < stop ensures Ends(One(after), s, k) == [] {
        OneEnds(after, s, k);
      }
      OnlyAtStop(One(after), s, i, i + 1, stop);
      OneEnds(after, s, stop);
    }
  }
}
