/** The few std::string operations the scanner relies on, stated over seq<char>. */
module Text {
  import opened Wrappers

  /** `p` occurs in `s` starting at index `i`. */
  predicate OccursAt(s: string, p: string, i: nat) {
    i + |p| <= |s| && s[i..i + |p|] == p
  }

  /** std::string::starts_with. */
  predicate StartsWith(s: string, p: string) {
    |p| <= |s| && s[..|p|] == p
  }

  /**
   * std::string::find(p, from): the first index at or after `from` where `p`
   * occurs, or None (npos). A start past the end finds nothing unless `p` is
   * empty and `from == |s|`, as in the C++ library.
   */
  function Find(s: string, p: string, from: nat): (r: Option<nat>)
    ensures r.Some? ==> from <= r.value && OccursAt(s, p, r.value)
    ensures r.Some? ==> forall j :: from <= j < r.value ==> !OccursAt(s, p, j)
    ensures r.None? ==> forall j :: from <= j ==> !OccursAt(s, p, j)
    decreases |s| - from
  {
    if from + |p| > |s| then None
    else if s[from..from + |p|] == p then Some(from)
    else Find(s, p, from + 1)
  }

  /** An occurrence with none before it, from `from` on, is what Find returns. */
  lemma {:induction false} FindIsFirst(s: string, p: string, from: nat, k: nat)
    requires from <= k && OccursAt(s, p, k)
    requires forall j :: from <= j < k ==> !OccursAt(s, p, j)
    ensures Find(s, p, from) == Some(k)
    decreases k - from
  {
    if from < k {
      assert !OccursAt(s, p, from);
      FindIsFirst(s, p, from + 1, k);
    }
  }

  /** The pattern occurs somewhere in `s` (find(p) != npos). */
  predicate Contains(s: string, p: string) {
    Find(s, p, 0).Some?
  }

  /**
   * The lines std::getline hands out when a stream over `c` is read until
   * eof: the pieces between '\n' characters, the separators dropped. A
   * trailing '\n' yields a final empty line, and so does an empty file.
   */
  function Lines(c: string): (ls: seq<string>)
    ensures |ls| >= 1
    ensures forall i :: 0 <= i < |ls| ==> '\n' !in ls[i]
    decreases |c|
  {
    if |c| == 0 then [[]]
    else if c[0] == '\n' then [[]] + Lines(c[1..])
    else
      var rest := Lines(c[1..]);
      [[c[0]] + rest[0]] + rest[1..]
  }

  /** The inverse of Lines: the lines glued back with '\n' between them. */
  function Join(ls: seq<string>): string
    requires |ls| >= 1
    decreases |ls|
  {
    if |ls| == 1 then ls[0] else ls[0] + "\n" + Join(ls[1..])
  }

  lemma JoinCons(ch: char, ls: seq<string>)
    requires |ls| >= 1
    ensures Join(ConsChar(ch, ls)) == [ch] + Join(ls)
  {
    if ch == '\n' {
      JoinConsNewline(ls);
    } else if |ls| > 1 {
      JoinConsLonger(ch, ls);
    }
  }

  lemma JoinConsNewline(ls: seq<string>)
    requires |ls| >= 1
    ensures Join([[]] + ls) == "\n" + Join(ls)
  {
    var c := [[]] + ls;
    assert c[1..] == ls;
  }

  lemma JoinConsLonger(ch: char, ls: seq<string>)
    requires ch != '\n' && |ls| > 1
    ensures Join([[ch] + ls[0]] + ls[1..]) == [ch] + Join(ls)
  {
    var c := [[ch] + ls[0]] + ls[1..];
    var x := Join(ls[1..]);
    assert c[1..] == ls[1..];
    assert ([ch] + ls[0]) + "\n" + x == [ch] + (ls[0] + "\n" + x);
  }

  /** Splitting loses nothing: the lines rejoin to the original content. */
  lemma {:induction false} JoinLines(c: string)
    ensures Join(Lines(c)) == c
    decreases |c|
  {
    if |c| > 0 {
      JoinLines(c[1..]);
      assert Lines(c) == ConsChar(c[0], Lines(c[1..]));
      JoinCons(c[0], Lines(c[1..]));
      assert c == [c[0]] + c[1..];
    }
  }

  /** One more character in front of text already split into lines `ls`. */
  function ConsChar(ch: char, ls: seq<string>): seq<string>
    requires |ls| >= 1
  {
    if ch == '\n' then [[]] + ls else [[ch] + ls[0]] + ls[1..]
  }

  /** `la`'s last line glued to `lb`'s first one. */
  function Glue(la: seq<string>, lb: seq<string>): seq<string>
    requires |la| >= 1 && |lb| >= 1
  {
    la[..|la| - 1] + [la[|la| - 1] + lb[0]] + lb[1..]
  }

  lemma ConsGlue(ch: char, la: seq<string>, lb: seq<string>)
    requires |la| >= 1 && |lb| >= 1
    ensures ConsChar(ch, Glue(la, lb)) == Glue(ConsChar(ch, la), lb)
  {
    if ch == '\n' {
      ConsGlueNewline(la, lb);
    } else if |la| == 1 {
      ConsGlueSingle(ch, la[0], lb);
    } else {
      ConsGlueLonger(ch, la, lb);
    }
  }

  lemma ConsGlueNewline(la: seq<string>, lb: seq<string>)
    requires |la| >= 1 && |lb| >= 1
    ensures ConsChar('\n', Glue(la, lb)) == Glue(ConsChar('\n', la), lb)
  {
    var c := [[]] + la;
    assert c[..|c| - 1] == [[]] + la[..|la| - 1];
    assert c[|c| - 1] == la[|la| - 1];
  }

  lemma ConsGlueSingle(ch: char, l: string, lb: seq<string>)
    requires ch != '\n' && |lb| >= 1
    ensures ConsChar(ch, Glue([l], lb)) == Glue(ConsChar(ch, [l]), lb)
  {
    var g := [l + lb[0]] + lb[1..];
    assert Glue([l], lb) == g;
    assert ConsChar(ch, [l]) == [[ch] + l];
    assert [ch] + (l + lb[0]) == ([ch] + l) + lb[0];
    assert g[1..] == lb[1..];
  }

  lemma ConsGlueLonger(ch: char, la: seq<string>, lb: seq<string>)
    requires ch != '\n' && |la| >= 2 && |lb| >= 1
    ensures ConsChar(ch, Glue(la, lb)) == Glue(ConsChar(ch, la), lb)
  {
    var mid := la[1..|la| - 1];
    var tail := [la[|la| - 1] + lb[0]] + lb[1..];
    var g := Glue(la, lb);
    assert la[..|la| - 1] == [la[0]] + mid;
    assert g == [la[0]] + (mid + tail);
    var c := ConsChar(ch, la);
    assert c == [[ch] + la[0]] + la[1..];
    assert c[..|c| - 1] == [[ch] + la[0]] + mid;
    assert c[|c| - 1] == la[|la| - 1];
  }

  /**
   * The lines of a concatenation: those of `a` with its last line glued to
   * the first line of `b`, then the rest of `b`'s lines.
   */
  lemma {:induction false} LinesAppend(a: string, b: string)
    ensures Lines(a + b) == Glue(Lines(a), Lines(b))
    decreases |a|
  {
    if |a| == 0 {
      assert a + b == b;
      var lb := Lines(b);
      assert [] + lb[0] == lb[0];
      assert lb == [lb[0]] + lb[1..];
    } else {
      assert (a + b)[0] == a[0];
      assert (a + b)[1..] == a[1..] + b;
      LinesAppend(a[1..], b);
      assert Lines(a + b) == ConsChar(a[0], Lines(a[1..] + b));
      assert Lines(a) == ConsChar(a[0], Lines(a[1..]));
      ConsGlue(a[0], Lines(a[1..]), Lines(b));
    }
  }
}
