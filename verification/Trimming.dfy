/** `str::trim`, for any notion of white space. */
module Trimming {
  function Trim(blank: char -> bool, s: string): string {
    if s == [] then s
    else if blank(s[0]) then Trim(blank, s[1..])
    else if blank(s[|s| - 1]) then Trim(blank, s[..|s| - 1])
    else s
  }

  predicate AllBlank(blank: char -> bool, s: string) {
    forall i :: 0 <= i < |s| ==> blank(s[i])
  }

  /** Neither end is blank. */
  predicate Tight(blank: char -> bool, s: string) {
    s == [] || (!blank(s[0]) && !blank(s[|s| - 1]))
  }

  /** Blanks on either side, however many, go away, and nothing else does. */
  lemma {:induction false} TrimExact(blank: char -> bool, front: string, middle: string, back: string)
    requires AllBlank(blank, front) && AllBlank(blank, back) && Tight(blank, middle)
    ensures Trim(blank, front + middle + back) == middle
    decreases |front| + |back|
  {
    var s := front + middle + back;
    if front != [] {
      assert s[1..] == front[1..] + middle + back;
      TrimExact(blank, front[1..], middle, back);
    } else if back != [] {
      if middle == [] {
        assert s == back && s[1..] == [] + [] + back[1..];
        TrimExact(blank, [], [], back[1..]);
      } else {
        assert s[0] == middle[0];
        assert s[..|s| - 1] == front + middle + back[..|back| - 1];
        TrimExact(blank, front, middle, back[..|back| - 1]);
      }
    } else {
      assert s == middle;
    }
  }

  /** Every text is what trimming leaves, with blanks on either side. */
  lemma {:induction false} TrimParts(blank: char -> bool, s: string) returns (front: string, back: string)
    ensures AllBlank(blank, front) && AllBlank(blank, back) && Tight(blank, Trim(blank, s))
    ensures s == front + Trim(blank, s) + back
  {
    hide Trim;
    TrimTurn(blank, s);
    front, back := [], [];
    if s != [] && blank(s[0]) {
      var f, b := TrimParts(blank, s[1..]);
      AddFront(s, f, Trim(blank, s), b);
      front, back := [s[0]] + f, b;
    } else if s != [] && blank(s[|s| - 1]) {
      var f, b := TrimParts(blank, s[..|s| - 1]);
      AddBack(s, f, Trim(blank, s), b);
      front, back := f, b + [s[|s| - 1]];
    } else {
      assert s == front + s + back;
    }
  }

  lemma {:induction false} TrimTurn(blank: char -> bool, s: string)
    ensures s != [] && blank(s[0]) ==> Trim(blank, s) == Trim(blank, s[1..])
    ensures s != [] && !blank(s[0]) && blank(s[|s| - 1]) ==> Trim(blank, s) == Trim(blank, s[..|s| - 1])
    ensures Tight(blank, s) ==> Trim(blank, s) == s
  {
  }

  lemma {:induction false} AddFront(s: string, front: string, middle: string, back: string)
    requires s != [] && s[1..] == front + middle + back
    ensures s == [s[0]] + front + middle + back
  {
    assert s == [s[0]] + s[1..];
  }

  lemma {:induction false} AddBack(s: string, front: string, middle: string, back: string)
    requires s != [] && s[..|s| - 1] == front + middle + back
    ensures s == front + middle + (back + [s[|s| - 1]])
  {
    assert s == s[..|s| - 1] + [s[|s| - 1]];
  }

  /** Trimming leaves nothing exactly when there was nothing but blanks. */
  lemma {:induction false} TrimsToNothing(blank: char -> bool, s: string)
    ensures Trim(blank, s) == [] <==> AllBlank(blank, s)
  {
    hide Trim;
    if Trim(blank, s) == [] {
      var front, back := TrimParts(blank, s);
    }
    if AllBlank(blank, s) {
      TrimExact(blank, s, [], []);
      assert s + [] + [] == s;
    }
  }
}
