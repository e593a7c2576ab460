/** The string operations the services take from their standard libraries: search, trim, split. */
module Text {
  import opened Wrappers

  /** Unicode white space, as the Go library trims it. */
  predicate IsSpace(c: char) {
    var u := c as int;
    || 9 <= u <= 13 || u == 32 || u == 0x85 || u == 0xA0 || u == 0x1680
    || 0x2000 <= u <= 0x200A || u == 0x2028 || u == 0x2029 || u == 0x202F || u == 0x205F || u == 0x3000
  }

  predicate Blank(s: string) {
    forall i :: 0 <= i < |s| ==> IsSpace(s[i])
  }

  /** No white space at either end. */
  predicate Trimmed(s: string) {
    s == [] || (!IsSpace(s[0]) && !IsSpace(s[|s|-1]))
  }

  function TrimLeft(s: string): string {
    if s != [] && IsSpace(s[0]) then TrimLeft(s[1..]) else s
  }

  function TrimRight(s: string): string {
    if s != [] && IsSpace(s[|s|-1]) then TrimRight(s[..|s|-1]) else s
  }

  function Trim(s: string): string {
    TrimRight(TrimLeft(s))
  }

  lemma {:induction false} TrimLeftParts(s: string) returns (l: string)
    ensures s == l + TrimLeft(s) && Blank(l)
    ensures TrimLeft(s) != [] ==> !IsSpace(TrimLeft(s)[0])
  {
    if s != [] && IsSpace(s[0]) {
      var rest := TrimLeftParts(s[1..]);
      l := [s[0]] + rest;
    } else {
      l := [];
    }
  }

  lemma {:induction false} TrimRightParts(s: string) returns (r: string)
    ensures s == TrimRight(s) + r && Blank(r)
    ensures TrimRight(s) != [] ==> !IsSpace(TrimRight(s)[|TrimRight(s)|-1])
  {
    if s != [] && IsSpace(s[|s|-1]) {
      var rest := TrimRightParts(s[..|s|-1]);
      r := rest + [s[|s|-1]];
    } else {
      r := [];
    }
  }

  /** Trimming cuts blanks off both ends and leaves a trimmed string. */
  lemma TrimParts(s: string) returns (l: string, r: string)
    ensures s == l + Trim(s) + r && Blank(l) && Blank(r) && Trimmed(Trim(s))
  {
    l := TrimLeftParts(s);
    r := TrimRightParts(TrimLeft(s));
    if Trim(s) != [] {
      assert TrimLeft(s)[0] == Trim(s)[0];
    }
  }

  lemma {:induction false} TrimLeftBlank(l: string, t: string)
    requires Blank(l)
    ensures TrimLeft(l + t) == TrimLeft(t)
  {
    if l == [] {
      assert l + t == t;
    } else {
      assert (l + t)[1..] == l[1..] + t;
      TrimLeftBlank(l[1..], t);
    }
  }

  lemma {:induction false} TrimRightBlank(t: string, r: string)
    requires Blank(r)
    ensures TrimRight(t + r) == TrimRight(t)
  {
    if r == [] {
      assert t + r == t;
    } else {
      assert (t + r)[..|t + r| - 1] == t + r[..|r|-1];
      TrimRightBlank(t, r[..|r|-1]);
    }
  }

  /** Trimming undoes any blank padding. */
  lemma TrimPadded(l: string, t: string, r: string)
    requires Blank(l) && Blank(r) && Trimmed(t)
    ensures Trim(l + t + r) == t
  {
    assert l + t + r == l + (t + r);
    TrimLeftBlank(l, t + r);
    if t == [] {
      assert t + r == r && r + [] == r;
      TrimLeftBlank(r, []);
    } else {
      assert TrimLeft(t + r) == t + r;
      TrimRightBlank(t, r);
    }
  }

  predicate OccursAt(s: string, p: string, i: nat) {
    i + |p| <= |s| && s[i..i + |p|] == p
  }

  /** The leftmost occurrence of p in s. */
  function Index(s: string, p: string): (r: Option<nat>)
    requires p != []
    ensures r.Some? ==> OccursAt(s, p, r.value)
  {
    if OccursAt(s, p, 0) then Some(0)
    else if s == [] then None
    else
      match Index(s[1..], p)
      case None => None
      case Some(i) => Some(i + 1)
  }

  lemma {:induction false} IndexIsLeftmost(s: string, p: string, i: nat)
    requires p != [] && OccursAt(s, p, i)
    ensures Index(s, p).Some? && Index(s, p).value <= i
  {
    if !OccursAt(s, p, 0) {
      assert OccursAt(s[1..], p, i - 1) by {
        assert s[1..][i - 1..i - 1 + |p|] == s[i..i + |p|];
      }
      IndexIsLeftmost(s[1..], p, i - 1);
    }
  }
}
