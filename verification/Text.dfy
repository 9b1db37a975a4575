/** The string operations the library leans on: `std::string_view::find`,
    `starts_with`, and `boost::trim_copy`. */
module Text {
  datatype Option<+T> = None | Some(value: T)

  // ---- find ----

  predicate OccursAt(s: string, p: string, i: nat) {
    i + |p| <= |s| && s[i..i + |p|] == p
  }

  /** `s.find(p, from)`, as an index into `s`. */
  function FindFrom(s: string, p: string, from: nat): Option<nat>
    decreases |s| - from
  {
    if |s| < from + |p| then None
    else if s[from..from + |p|] == p then Some(from)
    else FindFrom(s, p, from + 1)
  }

  /** `s.find(p)`. */
  function Find(s: string, p: string): Option<nat> {
    FindFrom(s, p, 0)
  }

  /** `r` is the first place, not before `from`, where `p` occurs in `s`. */
  predicate First(s: string, p: string, from: nat, r: Option<nat>) {
    match r
    case Some(i) => from <= i && OccursAt(s, p, i) && forall j: nat | from <= j < i :: !OccursAt(s, p, j)
    case None => forall j: nat | from <= j <= |s| :: !OccursAt(s, p, j)
  }

  lemma {:induction false} FindFromFirst(s: string, p: string, from: nat)
    ensures First(s, p, from, FindFrom(s, p, from))
    decreases |s| - from
  {
    if |s| >= from + |p| && s[from..from + |p|] != p {
      FindFromFirst(s, p, from + 1);
    }
  }

  lemma {:induction false} FindFirst(s: string, p: string, r: Option<nat>)
    ensures First(s, p, 0, r) <==> Find(s, p) == r
  {
    FindFromFirst(s, p, 0);
  }

  lemma {:induction false} OccursAtDrop(s: string, p: string, k: nat, i: nat)
    requires k <= |s|
    ensures OccursAt(s[k..], p, i) <==> OccursAt(s, p, k + i)
  {
    if k + i + |p| <= |s| {
      assert s[k..][i..i + |p|] == s[k + i..k + i + |p|];
    }
  }

  lemma {:induction false} OccursAtExtend(s: string, t: string, p: string, i: nat)
    requires i + |p| <= |s|
    ensures OccursAt(s, p, i) <==> OccursAt(s + t, p, i)
  {
    assert (s + t)[i..i + |p|] == s[i..i + |p|];
  }

  /** Whatever is first in `s` is first in a suffix it lies in. */
  lemma {:induction false} FindDrop(s: string, p: string, k: nat)
    requires k <= |s|
    requires forall j: nat | j < k :: !OccursAt(s, p, j)
    ensures match Find(s, p)
      case Some(i) => k <= i && Find(s[k..], p) == Some(i - k)
      case None => Find(s[k..], p) == None
  {
    FindFirst(s, p, Find(s, p));
    FindFromDrop(s, p, k);
    FindFromFirst(s, p, k);
    FindFirst(s, p, FindFrom(s, p, k));
  }

  lemma {:induction false} FindFromDrop(s: string, p: string, k: nat)
    requires k <= |s|
    ensures match FindFrom(s, p, k)
      case Some(i) => k <= i && i + |p| <= |s| && Find(s[k..], p) == Some(i - k)
      case None => Find(s[k..], p) == None
  {
    FindFromFirst(s, p, k);
    forall j: nat ensures OccursAt(s[k..], p, j) <==> OccursAt(s, p, k + j) { OccursAtDrop(s, p, k, j); }
    var r := match FindFrom(s, p, k) case Some(i) => Some(i - k) case None => None;
    FindFirst(s[k..], p, r);
  }

  /** An occurrence inside `s` is still first when `s` grows to the right. */
  lemma {:induction false} FindExtend(s: string, t: string, p: string)
    requires Find(s, p).Some?
    ensures Find(s + t, p) == Find(s, p)
  {
    var i := Find(s, p).value;
    FindFirst(s, p, Some(i));
    forall j: nat | j <= i ensures OccursAt(s, p, j) <==> OccursAt(s + t, p, j) {
      OccursAtExtend(s, t, p, j);
    }
    FindFirst(s + t, p, Some(i));
  }

  /** `p` does not occur in `s`. */
  predicate Lacks(s: string, p: string) {
    Find(s, p).None?
  }

  lemma {:induction false} LacksAll(s: string, p: string)
    ensures Lacks(s, p) <==> forall j: nat | j <= |s| :: !OccursAt(s, p, j)
  {
    FindFirst(s, p, None);
  }

  lemma {:induction false} LacksPart(s: string, p: string, i: nat, j: nat)
    requires Lacks(s, p) && i <= j <= |s|
    ensures Lacks(s[i..j], p)
  {
    LacksAll(s, p);
    assert s[i..j] + s[j..] == s[i..];
    forall k: nat | k <= j - i ensures !OccursAt(s[i..j], p, k) {
      if k + |p| <= j - i {
        OccursAtExtend(s[i..j], s[j..], p, k);
        OccursAtDrop(s, p, i, k);
      }
    }
    LacksAll(s[i..j], p);
  }

  lemma {:induction false} LacksBefore(s: string, p: string, k: nat)
    requires p != "" && Find(s, p) == Some(k)
    ensures k + |p| <= |s| && s[k..k + |p|] == p && Lacks(s[..k], p)
  {
    FindFirst(s, p, Some(k));
    forall j: nat | j <= k ensures !OccursAt(s[..k], p, j) {
      if OccursAt(s[..k], p, j) {
        assert s[..k][j..j + |p|] == s[j..j + |p|];
        assert OccursAt(s, p, j);
      }
    }
    LacksAll(s[..k], p);
  }

  lemma {:induction false} LacksChar(s: string, c: char)
    ensures Lacks(s, [c]) <==> c !in s
  {
    LacksAll(s, [c]);
    forall j: nat | j < |s| ensures OccursAt(s, [c], j) <==> s[j] == c {
      assert s[j..j + 1] == [s[j]];
    }
  }

  /** A delimiter right after a string that lacks it, and into which none of it
      reaches back, is the first one. */
  lemma {:induction false} FindAfter(s: string, p: string, t: string)
    requires p != "" && Lacks(s, p)
    requires forall i | 0 < i < |p| :: p[i] != p[0] || s == "" || s[|s| - 1] != p[i - 1]
    ensures Find(s + p + t, p) == Some(|s|)
  {
    var u := s + p + t;
    LacksAll(s, p);
    assert u[|s|..|s| + |p|] == p;
    forall j: nat | j < |s| ensures !OccursAt(u, p, j) {
      if j + |p| <= |s| {
        assert s[j..j + |p|] == u[j..j + |p|];
        assert !OccursAt(s, p, j);
      } else {
        var i := |s| - j;
        assert u[|s|] == p[0] && u[|s| - 1] == s[|s| - 1];
        if j + |p| <= |u| {
          assert u[j..j + |p|][i] == u[j + i];
          assert u[j..j + |p|][i - 1] == u[j + (i - 1)];
        }
      }
    }
    FindFirst(u, p, Some(|s|));
  }

  // ---- trim ----

  /** `std::isspace` in the classic locale. */
  predicate Space(c: char) {
    c == ' ' || c == '\t' || c == '\n' || c == '\r' || c == '\U{0B}' || c == '\U{0C}'
  }

  lemma {:induction false} SpaceCodes(c: char)
    ensures Space(c) <==> c as int == 32 || 9 <= c as int <= 13
  {
  }

  predicate AllSpace(s: string) {
    forall i | 0 <= i < |s| :: Space(s[i])
  }

  predicate Trimmed(s: string) {
    s == "" || (!Space(s[0]) && !Space(s[|s| - 1]))
  }

  function TrimLeft(s: string): string {
    if s != "" && Space(s[0]) then TrimLeft(s[1..]) else s
  }

  function TrimRight(s: string): string {
    if s != "" && Space(s[|s| - 1]) then TrimRight(s[..|s| - 1]) else s
  }

  /** `boost::trim_copy`. */
  function Trim(s: string): string {
    TrimRight(TrimLeft(s))
  }

  lemma {:induction false} TrimLeftSkips(l: string, s: string)
    requires AllSpace(l)
    ensures TrimLeft(l + s) == TrimLeft(s)
  {
    if l == "" {
      assert l + s == s;
    } else {
      assert (l + s)[1..] == l[1..] + s;
      TrimLeftSkips(l[1..], s);
    }
  }

  lemma {:induction false} TrimRightSkips(s: string, r: string)
    requires AllSpace(r)
    ensures TrimRight(s + r) == TrimRight(s)
  {
    if r == "" {
      assert s + r == s;
    } else {
      assert (s + r)[..|s + r| - 1] == s + r[..|r| - 1];
      TrimRightSkips(s, r[..|r| - 1]);
    }
  }

  /** Trimming removes exactly the outer white space. */
  lemma {:induction false} TrimIs(l: string, m: string, r: string)
    requires AllSpace(l) && AllSpace(r) && Trimmed(m)
    ensures Trim(l + m + r) == m
  {
    assert l + m + r == l + (m + r);
    TrimLeftSkips(l, m + r);
    if m == "" {
      assert m + r == r + "";
      TrimLeftSkips(r, "");
    } else {
      TrimRightSkips(m, r);
    }
  }

  lemma {:induction false} TrimId(s: string)
    requires Trimmed(s)
    ensures Trim(s) == s
  {
    TrimIs("", s, "");
    assert "" + s + "" == s;
  }

  lemma {:induction false} TrimLeftSplit(s: string) returns (l: string)
    ensures AllSpace(l) && s == l + TrimLeft(s)
    ensures TrimLeft(s) != "" ==> !Space(TrimLeft(s)[0])
  {
    if s != "" && Space(s[0]) {
      var l' := TrimLeftSplit(s[1..]);
      l := [s[0]] + l';
    } else {
      l := "";
    }
  }

  lemma {:induction false} TrimRightSplit(s: string) returns (r: string)
    ensures AllSpace(r) && s == TrimRight(s) + r
    ensures TrimRight(s) != "" ==> !Space(TrimRight(s)[|TrimRight(s)| - 1])
  {
    if s != "" && Space(s[|s| - 1]) {
      var r' := TrimRightSplit(s[..|s| - 1]);
      r := r' + [s[|s| - 1]];
    } else {
      r := "";
    }
  }

  /** Every string is white space, its trimmed core, white space. */
  lemma {:induction false} TrimSplits(s: string) returns (l: string, r: string)
    ensures AllSpace(l) && AllSpace(r) && Trimmed(Trim(s))
    ensures s == l + Trim(s) + r
  {
    l := TrimLeftSplit(s);
    r := TrimRightSplit(TrimLeft(s));
  }

  // ---- joining ----

  function Flatten(parts: seq<string>): string {
    if parts == [] then "" else parts[0] + Flatten(parts[1..])
  }

  /** `boost::join`. */
  function Join(parts: seq<string>, d: string): string {
    if parts == [] then ""
    else if |parts| == 1 then parts[0]
    else parts[0] + d + Join(parts[1..], d)
  }
}
