/** Vocabulary shared by the models. */
module Common {

  datatype Option<+T> = None | Some(value: T)

  function Min(a: int, b: int): int {
    if a <= b then a else b
  }

  function MinReal(a: real, b: real): real {
    if a <= b then a else b
  }

  function Coalesce<T>(value: Option<T>, default: T): Option<T> {
    if value.Some? then value else Some(default)
  }
}

/** Laws of concatenation that the solver needs to be shown. */
module Sequences {

  lemma Associative<T>(a: seq<T>, b: seq<T>, c: seq<T>)
    ensures a + (b + c) == (a + b) + c
  {
  }

  lemma AppendNothing<T>(a: seq<T>)
    ensures a + [] == a == [] + a
  {
  }

  lemma AddsNothing<T>(all: seq<T>, a: seq<T>, b: seq<T>)
    requires all == a + b && b == []
    ensures all == a
  {
  }

  lemma SwapWithEmpty<T>(a: seq<T>, b: seq<T>, c: seq<T>)
    requires b == [] || c == []
    ensures (a + b) + c == (a + c) + b
  {
  }
}

/** `str.strip` for the ASCII white space, and `str.lower` for ASCII letters. */
module Strings {

  predicate Space(c: char) {
    c == ' ' || '\t' <= c <= '\r' || 28 <= c as int <= 31
  }

  function TrimLeft(s: string): string {
    if s != [] && Space(s[0]) then TrimLeft(s[1..]) else s
  }

  function TrimRight(s: string): string {
    if s != [] && Space(s[|s| - 1]) then TrimRight(s[..|s| - 1]) else s
  }

  function Strip(s: string): string {
    TrimRight(TrimLeft(s))
  }

  predicate IsBlank(s: string) {
    Strip(s) == ""
  }

  /**
   `str.lower` as far as a comparison with ASCII words can tell: the Kelvin sign is the
   only character outside ASCII whose lower case is an ASCII letter alone.
   */
  function LowerChar(c: char): char {
    if 'A' <= c <= 'Z' then (c as int + 32) as char
    else if c == '\U{212A}' then 'k'
    else c
  }

  function Lower(s: string): string {
    if s == [] then [] else [LowerChar(s[0])] + Lower(s[1..])
  }

  /** The white space of `str.strip` by code point. */
  predicate Blankspace(c: char) {
    c as int in {9, 10, 11, 12, 13, 28, 29, 30, 31, 32}
  }

  lemma {:induction false} TrimLeftSpec(s: string) returns (i: nat)
    ensures i <= |s| && TrimLeft(s) == s[i..]
    ensures (forall k | 0 <= k < i :: Blankspace(s[k])) && (i < |s| ==> !Blankspace(s[i]))
  {
    if s != [] && Space(s[0]) {
      i := TrimLeftSpec(s[1..]);
      assert s[1..][i..] == s[i + 1..];
      i := i + 1;
    } else {
      i := 0;
    }
  }

  lemma {:induction false} TrimRightSpec(s: string) returns (j: nat)
    ensures j <= |s| && TrimRight(s) == s[..j]
    ensures (forall k | j <= k < |s| :: Blankspace(s[k])) && (j > 0 ==> !Blankspace(s[j - 1]))
  {
    if s != [] && Space(s[|s| - 1]) {
      j := TrimRightSpec(s[..|s| - 1]);
      assert s[..|s| - 1][..j] == s[..j];
    } else {
      j := |s|;
    }
  }

  /** Stripping cuts off white space, at both ends and all of it, and nothing else. */
  lemma {:induction false} StripSpec(s: string) returns (i: nat, j: nat)
    ensures i <= j <= |s| && Strip(s) == s[i..j]
    ensures forall k | 0 <= k < |s| && !(i <= k < j) :: Blankspace(s[k])
    ensures i < j ==> !Blankspace(s[i]) && !Blankspace(s[j - 1])
  {
    i := TrimLeftSpec(s);
    var n := TrimRightSpec(s[i..]);
    j := i + n;
    assert s[i..][..n] == s[i..j];
    assert forall k | j <= k < |s| :: s[i..][k - i] == s[k];
  }

  /** `key` is `word` up to ASCII capitals, and up to the Kelvin sign for a k. */
  predicate Spells(key: string, word: string) {
    && |key| == |word|
    && forall i | 0 <= i < |key| ::
         || key[i] == word[i]
         || ('a' <= word[i] <= 'z' && key[i] as int == word[i] as int - 32)
         || (word[i] == 'k' && key[i] == '\U{212A}')
  }

  /** Lower-casing gives a word without capitals exactly for the strings that spell it. */
  lemma {:induction false} LowerSpells(key: string, word: string)
    requires forall i | 0 <= i < |word| :: !('A' <= word[i] <= 'Z') && word[i] != '\U{212A}'
    ensures Lower(key) == word <==> Spells(key, word)
  {
    if key != [] && word != [] {
      LowerSpells(key[1..], word[1..]);
      assert Lower(key)[1..] == Lower(key[1..]);
      assert key == [key[0]] + key[1..] && word == [word[0]] + word[1..];
      assert Spells(key, word) <==> Spells([key[0]], [word[0]]) && Spells(key[1..], word[1..]) by {
        SpellsByParts(key, word);
      }
      assert LowerChar(key[0]) == word[0] <==> Spells([key[0]], [word[0]]) by {
        assert [key[0]][0] == key[0] && [word[0]][0] == word[0];
      }
    }
  }

  lemma SpellsByParts(key: string, word: string)
    requires key != [] && word != []
    ensures Spells(key, word) <==> Spells([key[0]], [word[0]]) && Spells(key[1..], word[1..])
  {
    if Spells([key[0]], [word[0]]) && Spells(key[1..], word[1..]) {
      forall i | 0 <= i < |key| ensures Spells([key[i]], [word[i]]) {
        if i > 0 {
          assert key[i] == key[1..][i - 1] && word[i] == word[1..][i - 1];
        }
      }
      assert forall i | 0 <= i < |key| :: [key[i]][0] == key[i] && [word[i]][0] == word[i];
    }
    if Spells(key, word) {
      assert [key[0]][0] == key[0] && [word[0]][0] == word[0];
      assert forall i | 0 <= i < |key[1..]| :: key[1..][i] == key[i + 1] && word[1..][i] == word[i + 1];
    }
  }

  lemma {:induction false} LowerIsIdempotent(s: string)
    ensures Lower(Lower(s)) == Lower(s)
  {
    if s != [] {
      LowerIsIdempotent(s[1..]);
      assert Lower(s)[1..] == Lower(s[1..]);
    }
  }

  lemma {:induction false} TrimRightKeeps(s: string, i: nat)
    requires i < |s| && !Space(s[i])
    ensures TrimRight(s) != ""
  {
    if Space(s[|s| - 1]) {
      TrimRightKeeps(s[..|s| - 1], i);
    }
  }

  lemma {:induction false} NotBlankAt(s: string, i: nat)
    requires i < |s| && !Space(s[i])
    ensures !IsBlank(s)
  {
    if Space(s[0]) {
      NotBlankAt(s[1..], i - 1);
    } else {
      TrimRightKeeps(s, i);
    }
  }
}

/** Walks along the edges of a graph. */
module Walks {

  /** Each step from an element of `p` to the next is an edge. */
  ghost predicate IsWalk<T>(g: set<(T, T)>, p: seq<T>) {
    p != [] && forall i :: 0 <= i < |p| - 1 ==> (p[i], p[i + 1]) in g
  }

  /** No walk of one or more edges returns to its start. */
  ghost predicate Acyclic<T(!new)>(g: set<(T, T)>) {
    forall p :: IsWalk(g, p) && |p| >= 2 ==> p[0] != p[|p| - 1]
  }
}

/**
 Partial functions as chains of links: the version links of the documents table.
 */
module Links {
  import Walks

  type Id = nat

  function Edges(links: map<Id, Id>): (g: set<(Id, Id)>)
    ensures forall a, b :: (a, b) in g <==> a in links && links[a] == b
  {
    set a | a in links :: (a, links[a])
  }

  /** `p` follows the links from its first to its last element. */
  ghost predicate IsPath(links: map<Id, Id>, p: seq<Id>) {
    Walks.IsWalk(Edges(links), p)
  }

  ghost predicate Leads(links: map<Id, Id>, from: Id, to: Id) {
    exists p :: IsPath(links, p) && p[0] == from && p[|p| - 1] == to
  }

  /** No path of one or more links returns to its start. */
  ghost predicate Acyclic(links: map<Id, Id>) {
    Walks.Acyclic(Edges(links))
  }

  lemma TwoLinksMakeACycle(links: map<Id, Id>, a: Id, b: Id)
    requires a in links && b in links && links[a] == b && links[b] == a
    ensures !Acyclic(links)
  {
    assert IsPath(links, [a, b, a]);
  }

  lemma SingleLinksAreAcyclic(links: map<Id, Id>)
    requires forall a :: a in links ==> links[a] !in links
    ensures Acyclic(links)
  {
    forall p | IsPath(links, p) && |p| >= 2 ensures p[0] != p[|p| - 1] {
      assert (p[0], p[1]) in Edges(links) && (p[|p| - 2], p[|p| - 1]) in Edges(links);
    }
  }

  /** The part of a path up to the first occurrence of its last element. */
  lemma {:induction false} ShortestPath(links: map<Id, Id>, p: seq<Id>) returns (q: seq<Id>)
    requires IsPath(links, p)
    ensures IsPath(links, q) && q[0] == p[0] && q[|q| - 1] == p[|p| - 1]
    ensures forall i :: 0 <= i < |q| - 1 ==> q[i] != q[|q| - 1]
  {
    if p[0] == p[|p| - 1] {
      q := [p[0]];
    } else {
      var rest := p[1..];
      assert forall i :: 0 <= i < |rest| ==> rest[i] == p[i + 1];
      q := ShortestPath(links, rest);
      q := [p[0]] + q;
    }
  }

  lemma RedirectedPath(links: map<Id, Id>, a: Id, b: Id, p: seq<Id>)
    requires forall i :: 0 <= i < |p| - 1 ==> p[i] != a
    ensures IsPath(links[a := b], p) <==> IsPath(links, p)
  {
  }

  lemma JoinPaths(links: map<Id, Id>, p: seq<Id>, q: seq<Id>)
    requires IsPath(links, p) && IsPath(links, q) && p[|p| - 1] == q[0]
    ensures IsPath(links, p + q[1..])
    ensures (p + q[1..])[0] == p[0] && (p + q[1..])[|p| + |q| - 2] == q[|q| - 1]
  {
  }

  lemma SubPath(links: map<Id, Id>, p: seq<Id>, i: nat, j: nat)
    requires IsPath(links, p) && i < j <= |p|
    ensures IsPath(links, p[i..j])
  {
  }

  /** Leading to `t` from a linked element other than `t` is leading there from its link. */
  lemma LeadsBeyond(links: map<Id, Id>, d: Id, t: Id)
    requires d in links && d != t
    ensures Leads(links, d, t) <==> Leads(links, links[d], t)
  {
    if Leads(links, d, t) {
      var p :| IsPath(links, p) && p[0] == d && p[|p| - 1] == t;
      SubPath(links, p, 1, |p|);
      assert (p[0], p[1]) in Edges(links);
      assert IsPath(links, p[1..|p|]) && p[1..|p|][0] == links[d];
    }
    if Leads(links, links[d], t) {
      var p :| IsPath(links, p) && p[0] == links[d] && p[|p| - 1] == t;
      assert IsPath(links, [d] + p);
    }
  }

  /** A cycle through the redirected link leads from `b` back to `a` along old links. */
  lemma CycleUsesRedirect(links: map<Id, Id>, a: Id, b: Id, c: seq<Id>)
    requires Acyclic(links) && a != b
    requires IsPath(links[a := b], c) && |c| >= 2 && c[0] == c[|c| - 1]
    ensures Leads(links, b, a)
  {
    if i :| 0 <= i < |c| - 1 && c[i] == a {
      var q := WalkBack(links[a := b], a, b, c, i);
      RedirectedPath(links, a, b, q);
    } else {
      RedirectedPath(links, a, b, c);
    }
  }

  /** The part of a closed walk from behind position `i` round to `i`, without repetitions. */
  lemma WalkBack(next: map<Id, Id>, a: Id, b: Id, c: seq<Id>, i: nat) returns (q: seq<Id>)
    requires IsPath(next, c) && i < |c| - 1 && c[0] == c[|c| - 1] && c[i] == a && a in next && next[a] == b
    ensures IsPath(next, q) && q[0] == b && q[|q| - 1] == a
    ensures forall k :: 0 <= k < |q| - 1 ==> q[k] != a
  {
    SubPath(next, c, i + 1, |c|);
    SubPath(next, c, 0, i + 1);
    var there, back := c[i + 1..|c|], c[0..i + 1];
    JoinPaths(next, there, back);
    q := ShortestPath(next, there + back[1..]);
  }

  /** Redirecting one link keeps the chains acyclic exactly when its new end does not lead back. */
  lemma RedirectKeepsAcyclicIff(links: map<Id, Id>, a: Id, b: Id)
    requires Acyclic(links) && a != b
    ensures Acyclic(links[a := b]) <==> !Leads(links, b, a)
  {
    if Leads(links, b, a) {
      var p :| IsPath(links, p) && p[0] == b && p[|p| - 1] == a;
      var q := ShortestPath(links, p);
      RedirectedPath(links, a, b, q);
      var c := q + [b];
      assert IsPath(links[a := b], c) && c[0] == c[|c| - 1];
    } else {
      forall c | IsPath(links[a := b], c) && |c| >= 2 ensures c[0] != c[|c| - 1] {
        if c[0] == c[|c| - 1] {
          CycleUsesRedirect(links, a, b, c);
        }
      }
    }
  }
}
