/**
The branch hierarchy: re-parenting a church after walking up from the proposed parent.
Ids arrive as text; the database compares decoded ids, the walk compares the text.
*/
module Hierarchy {
  import opened Options
  import opened Text

  // ---- ids -----------------------------------------------------------------------

  predicate IsHex(c: char) {
    IsDigit(c) || 'a' <= c <= 'f' || 'A' <= c <= 'F'
  }

  function LowerHex(c: char): char {
    if 'A' <= c <= 'F' then (c as int + 32) as char else c
  }

  /** ObjectIDFromHex followed by Hex: 24 hexadecimal digits, read in either case, written in lower case. */
  function FromHex(s: string): Option<string> {
    if |s| == 24 && forall c :: c in s ==> IsHex(c) then
      Some(seq(24, i requires 0 <= i < 24 => LowerHex(s[i])))
    else None
  }

  predicate Canonical(s: string) {
    FromHex(s) == Some(s)
  }

  lemma FromHexIsCanonical(s: string)
    requires FromHex(s).Some?
    ensures Canonical(FromHex(s).value)
  {
    var t := FromHex(s).value;
    forall c | c in t ensures IsHex(c) {
      var i :| 0 <= i < |t| && t[i] == c;
      assert s[i] in s;
    }
    forall i | 0 <= i < 24 ensures LowerHex(t[i]) == t[i] {
      assert s[i] in s;
    }
    assert seq(24, i requires 0 <= i < 24 => LowerHex(t[i])) == t;
  }

  // ---- the upward walk -----------------------------------------------------------

  /** Each stored church, by decoded id, with the text of its parent's id; the empty text at the top. */
  type Tree = map<string, string>

  /** Where the walk goes from a cursor; it ends at the empty text. */
  function Up(tree: Tree, cursor: string): string {
    match FromHex(cursor)
    case Some(id) => if id in tree then tree[id] else ""
    case None => ""
  }

  function Steps(tree: Tree, cursor: string, n: nat): string
    decreases n
  {
    if n == 0 then cursor else Steps(tree, Up(tree, cursor), n - 1)
  }

  /** The walk from the parent meets the child, or comes back to a cursor it has seen. */
  ghost predicate Refuses(tree: Tree, child: string, parent: string) {
    || child == parent
    || (exists n: nat :: Meets(tree, child, parent, n))
    || (exists i: nat, j: nat :: Repeats(tree, parent, i, j))
  }

  predicate Meets(tree: Tree, child: string, parent: string, n: nat) {
    Steps(tree, parent, n) == child != ""
  }

  predicate Repeats(tree: Tree, parent: string, i: nat, j: nat) {
    i < j && Steps(tree, parent, i) == Steps(tree, parent, j) != ""
  }

  datatype Outcome = Moved | CircularParent | NotFound

  lemma {:induction false} StepsAdd(tree: Tree, s: string, m: nat, n: nat)
    ensures Steps(tree, s, m + n) == Steps(tree, Steps(tree, s, m), n)
    decreases m
  {
    if m > 0 {
      StepsAdd(tree, Up(tree, s), m - 1, n);
    }
  }

  lemma StepsNext(tree: Tree, s: string, n: nat)
    ensures Steps(tree, s, n + 1) == Up(tree, Steps(tree, s, n))
  {
    StepsAdd(tree, s, n, 1);
    assert Steps(tree, Steps(tree, s, n), 1) == Steps(tree, Up(tree, Steps(tree, s, n)), 0);
  }

  lemma {:induction false} TopIsLast(tree: Tree, n: nat)
    ensures Steps(tree, "", n) == ""
  {
    if n > 0 {
      TopIsLast(tree, n - 1);
    }
  }

  lemma EndsAt(tree: Tree, s: string, n: nat, m: nat)
    requires Steps(tree, s, n) == "" && n <= m
    ensures Steps(tree, s, m) == ""
  {
    StepsAdd(tree, s, n, m - n);
    TopIsLast(tree, m - n);
  }

  /** A walk that ends without meeting the child or repeating a cursor refuses nothing. */
  lemma CleanWalk(tree: Tree, child: string, parent: string, n: nat)
    requires child != parent && Steps(tree, parent, n) == ""
    requires forall i: nat :: i < n ==> Steps(tree, parent, i) != child
    requires forall i: nat, j: nat :: i < j < n ==> Steps(tree, parent, i) != Steps(tree, parent, j)
    ensures !Refuses(tree, child, parent)
  {
    forall m: nat ensures !Meets(tree, child, parent, m) {
      if m >= n { EndsAt(tree, parent, n, m); }
    }
    forall i: nat, j: nat ensures !Repeats(tree, parent, i, j) {
      if j >= n { EndsAt(tree, parent, n, j); }
    }
  }

  function StringsOf(tree: Tree): set<string> {
    set id | id in tree :: tree[id]
  }

  class ChurchTree {
    var parents: Tree

    constructor (parents: Tree)
      ensures this.parents == parents
    {
      this.parents := parents;
    }

    /** Terminates on any stored data: every further step sees a cursor not seen before. */
    method SetParent(child: string, parent: string) returns (out: Outcome)
      modifies this
      ensures out == if Refuses(old(parents), child, parent) then CircularParent
                     else if FromHex(child).None? || FromHex(parent).None? then NotFound
                     else Moved
      ensures parents == After(old(parents), child, parent)
      ensures parents == if out == Moved && FromHex(child).value in old(parents)
                         then old(parents)[FromHex(child).value := FromHex(parent).value] else old(parents)
    {
      hide FromHex;
      if child == parent {
        return CircularParent;
      }
      var seen: set<string> := {};
      var cursor := parent;
      ghost var n: nat := 0;
      ghost var texts := {parent} + StringsOf(parents);
      while cursor != ""
        invariant parents == old(parents)
        invariant cursor == Steps(parents, parent, n) && (cursor == "" || cursor in texts) && seen <= texts
        invariant forall i: nat :: i < n ==> Steps(parents, parent, i) in seen && Steps(parents, parent, i) != child
        invariant forall s :: s in seen ==> s != "" && exists i: nat :: i < n && Steps(parents, parent, i) == s
        invariant forall i: nat, j: nat :: i < j < n ==> Steps(parents, parent, i) != Steps(parents, parent, j)
        decreases texts - seen
      {
        if cursor == child {
          assert Meets(parents, child, parent, n);
          return CircularParent;
        }
        if cursor in seen {
          ghost var i: nat :| i < n && Steps(parents, parent, i) == cursor;
          assert Repeats(parents, parent, i, n);
          return CircularParent;
        }
        seen := seen + {cursor};
        StepsNext(parents, parent, n);
        n := n + 1;
        assert Steps(parents, parent, n - 1) == cursor;
        var oid := FromHex(cursor);
        if oid.None? || oid.value !in parents {
          break;
        }
        cursor := parents[oid.value];
      }
      CleanWalk(parents, child, parent, n);
      var childId, parentId := FromHex(child), FromHex(parent);
      if childId.None? || parentId.None? {
        return NotFound;
      }
      if childId.value in parents {
        parents := parents[childId.value := parentId.value];
      }
      return Moved;
    }
  }

  // ---- acyclicity ----------------------------------------------------------------

  /** What ids in the database look like: keys and parents are decoded ids, or no parent. */
  ghost predicate WellFormed(tree: Tree) {
    forall id :: id in tree ==> Canonical(id) && (tree[id] == "" || Canonical(tree[id]))
  }

  ghost predicate Acyclic(tree: Tree) {
    forall id, n: nat :: id in tree && n >= 1 ==> Steps(tree, id, n) != id
  }

  /** Walking up from a church meets another. */
  ghost predicate Reaches(tree: Tree, lower: string, upper: string) {
    exists n: nat :: Steps(tree, lower, n) == upper
  }

  lemma ReachedIn(tree: Tree, lower: string, upper: string, n: nat)
    requires Steps(tree, lower, n) == upper
    ensures Reaches(tree, lower, upper)
  {
  }

  lemma {:induction false} StepsStayCanonical(tree: Tree, s: string, n: nat)
    requires WellFormed(tree) && (s == "" || Canonical(s))
    ensures Steps(tree, s, n) == "" || Canonical(Steps(tree, s, n))
    decreases n
  {
    if n > 0 {
      StepsStayCanonical(tree, Up(tree, s), n - 1);
    }
  }

  lemma EmptyIsNoId()
    ensures FromHex("").None?
  {
  }

  /** Away from one church two trees walk alike. */
  ghost predicate AgreeOff(tree: Tree, other: Tree, c: string) {
    forall x :: x == "" || Canonical(x) ==> x == c || Up(tree, x) == Up(other, x)
  }

  lemma MovedAgrees(tree: Tree, c: string, p: string)
    requires WellFormed(tree) && Canonical(c) && Canonical(p)
    ensures AgreeOff(tree, tree[c := p], c) && AgreeOff(tree[c := p], tree, c)
    ensures WellFormed(tree[c := p]) && Up(tree[c := p], c) == p
  {
    EmptyIsNoId();
  }

  /** The walk stays among stored ids and goes on alike away from the changed church. */
  lemma UpAlike(tree: Tree, other: Tree, c: string, s: string)
    requires WellFormed(tree) && AgreeOff(tree, other, c) && (s == "" || Canonical(s)) && s != c
    ensures Up(tree, s) == Up(other, s)
    ensures Up(tree, s) == "" || Canonical(Up(tree, s))
  {
  }

  /** So a walk meets the changed church in both trees or in neither. */
  lemma {:induction false} MeetsInBoth(tree: Tree, other: Tree, c: string, s: string, k: nat) returns (j: nat)
    requires WellFormed(tree) && AgreeOff(tree, other, c) && (s == "" || Canonical(s))
    requires Steps(tree, s, k) == c
    ensures j <= k && Steps(other, s, j) == c
    decreases k
  {
    hide Canonical, FromHex, Up, AgreeOff, WellFormed;
    if s == c {
      j := 0;
    } else {
      UpAlike(tree, other, c, s);
      var i := MeetsInBoth(tree, other, c, Up(tree, s), k - 1);
      j := i + 1;
    }
  }

  /** A walk in the changed tree passes the changed church, or it goes as before. */
  lemma {:induction false} WalkPasses(tree: Tree, other: Tree, c: string, s: string, n: nat) returns (m: nat)
    requires WellFormed(tree) && AgreeOff(tree, other, c) && (s == "" || Canonical(s))
    ensures m <= n && ((m < n && Steps(tree, s, m) == c) || Steps(tree, s, n) == Steps(other, s, n))
    decreases n
  {
    hide Canonical, FromHex, Up, AgreeOff, WellFormed;
    m := n;
    if n > 0 {
      if s == c {
        m := 0;
      } else {
        UpAlike(tree, other, c, s);
        var i := WalkPasses(tree, other, c, Up(tree, s), n - 1);
        m := i + 1;
      }
    }
  }

  /** A walk from the parent that meets the child is a cycle once the child hangs below. */
  lemma MeetingClosesCycle(tree: Tree, c: string, p: string, k: nat)
    requires WellFormed(tree) && Canonical(c) && Canonical(p) && Steps(tree, p, k) == c
    ensures !Acyclic(tree[c := p])
  {
    var moved := tree[c := p];
    MovedAgrees(tree, c, p);
    hide Canonical, FromHex, Up, AgreeOff, WellFormed;
    var j := MeetsInBoth(tree, moved, c, p, k);
    assert Steps(moved, c, j + 1) == Steps(moved, p, j);
    assert c in moved;
  }

  lemma NoCycleAt(tree: Tree, id: string, n: nat)
    requires Acyclic(tree) && id in tree && n >= 1
    ensures Steps(tree, id, n) != id
  {
    hide Steps;
  }

  /** A cycle through one church of it is a cycle through another. */
  lemma CycleRotates(tree: Tree, id: string, m: nat, n: nat)
    requires Steps(tree, id, n) == id
    ensures Steps(tree, Steps(tree, id, m), n) == Steps(tree, id, m)
  {
    StepsAdd(tree, id, m, n);
    StepsAdd(tree, id, n, m);
  }

  /** Every cycle of the moved tree passes the child: the walk from the parent meets it. */
  lemma CycleMeetsChild(tree: Tree, c: string, p: string, id: string, n: nat)
    requires WellFormed(tree) && Acyclic(tree) && Canonical(c) && Canonical(p)
    requires id in tree[c := p] && n >= 1 && Steps(tree[c := p], id, n) == id
    ensures Reaches(tree, p, c)
  {
    var moved := tree[c := p];
    MovedAgrees(tree, c, p);
    StoredIsCanonical(moved, id);
    assert Steps(moved, c, n) == Steps(moved, Up(moved, c), n - 1);
    assert Steps(moved, id, 0) == id;
    hide Canonical, FromHex, Up, AgreeOff, WellFormed, Acyclic, Steps, Reaches;
    var m := 0;
    if id != c {
      m := WalkPasses(moved, tree, c, id, n);
      NoCycleAt(tree, id, n);
    }
    CycleRotates(moved, id, m, n);
    var j := MeetsInBoth(moved, tree, c, p, n - 1);
    ReachedIn(tree, p, c, j);
  }

  lemma StoredIsCanonical(tree: Tree, id: string)
    requires WellFormed(tree) && id in tree
    ensures Canonical(id)
  {
  }

  /** With ids in their stored form, a re-parenting closes a cycle exactly when the walk meets the child. */
  lemma CycleIffMeets(tree: Tree, c: string, p: string)
    requires WellFormed(tree) && Acyclic(tree) && Canonical(c) && Canonical(p)
    ensures WellFormed(tree[c := p])
    ensures Acyclic(tree[c := p]) <==> !Reaches(tree, p, c)
  {
    var moved := tree[c := p];
    MovedAgrees(tree, c, p);
    hide Canonical, FromHex, Up, AgreeOff, WellFormed, Steps;
    if k: nat :| Steps(tree, p, k) == c {
      MeetingClosesCycle(tree, c, p, k);
      ReachedIn(tree, p, c, k);
    }
    if id, n: nat :| id in moved && n >= 1 && Steps(moved, id, n) == id {
      CycleMeetsChild(tree, c, p, id, n);
    }
  }

  lemma CanonicalUp(tree: Tree, c: string)
    ensures Canonical(c) ==> Up(tree, c) == if c in tree then tree[c] else ""
  {
  }

  /** The moved church sits where it is asked to, without closing a cycle of any length. */
  ghost function After(tree: Tree, child: string, parent: string): Tree {
    if Refuses(tree, child, parent) || FromHex(child).None? || FromHex(parent).None? then tree
    else if FromHex(child).value !in tree then tree
    else tree[FromHex(child).value := FromHex(parent).value]
  }

  /**
  A re-parenting that is not refused happens: from the child the walk now goes to the
  parent, and every other row is as it was. In every other case all rows are.
  */
  lemma MoveHappens(tree: Tree, child: string, parent: string)
    ensures var moved := After(tree, child, parent);
            var allowed := FromHex(child).Some? && FromHex(parent).Some? && FromHex(child).value in tree
                           && !Refuses(tree, child, parent);
            && moved.Keys == tree.Keys
            && (allowed ==> Up(moved, child) == FromHex(parent).value)
            && (forall id :: id in tree && !(allowed && FromHex(child) == Some(id)) ==> moved[id] == tree[id])
  {
    hide FromHex, Refuses;
  }

  /** The decoded id is the same 24 digits, capitals A to F in lower case. */
  lemma DecodedId(s: string)
    ensures FromHex(s).Some? <==>
            |s| == 24 && forall c :: c in s ==> '0' <= c <= '9' || 'a' <= c <= 'f' || 'A' <= c <= 'F'
    ensures FromHex(s).Some? ==>
              var id := FromHex(s).value;
              |id| == 24 && forall i :: 0 <= i < 24 ==> id[i] == s[i] || (s[i], id[i]) in HEX_LETTERS
    ensures FromHex(s).Some? ==> forall c :: c in FromHex(s).value ==> !('A' <= c <= 'F')
  {
    if FromHex(s).Some? {
      forall i | 0 <= i < 24 ensures s[i] in s {
      }
    }
  }

  const HEX_LETTERS: set<(char, char)> := {('A', 'a'), ('B', 'b'), ('C', 'c'), ('D', 'd'), ('E', 'e'), ('F', 'f')}

  /**
  The spelling of the two ids that the walk's text comparison can rely on: the child's
  id is in its stored form, and the parent's id is not the same id spelled otherwise.
  */
  predicate SafeSpelling(child: string, parent: string) {
    || child == parent
    || FromHex(child).None?
    || FromHex(parent).None?
    || (Canonical(child) && FromHex(parent) != Some(child))
  }

  /** From a parent's id in any spelling the walk goes on as from its stored form. */
  lemma SpellingOfStart(tree: Tree, parent: string, n: nat)
    requires FromHex(parent).Some? && n >= 1
    ensures Steps(tree, parent, n) == Steps(tree, FromHex(parent).value, n)
  {
    FromHexIsCanonical(parent);
  }

  /** In a healthy tree no walk comes back to a cursor. */
  lemma NoRepeats(tree: Tree, parent: string)
    requires WellFormed(tree) && Acyclic(tree) && FromHex(parent).Some?
    ensures forall i: nat, j: nat :: !Repeats(tree, parent, i, j)
  {
    FromHexIsCanonical(parent);
    var p := FromHex(parent).value;
    hide FromHex, Canonical;
    forall i: nat, j: nat ensures !Repeats(tree, parent, i, j) {
      if Repeats(tree, parent, i, j) {
        SpellingOfStart(tree, parent, j);
        StepsStayCanonical(tree, p, j);
        var z := Steps(tree, parent, j);
        assert Canonical(z);
        StepsAdd(tree, parent, i, j - i);
        assert Steps(tree, z, j - i) == z;
        CycleIsStored(tree, z, j - i);
      }
    }
  }

  lemma CycleIsStored(tree: Tree, z: string, n: nat)
    requires Canonical(z) && n >= 1 && Steps(tree, z, n) == z
    ensures z in tree
  {
    if z !in tree {
      TopIsLast(tree, n - 1);
      EmptyIsNoId();
    }
  }

  /** With safely spelled ids, re-parenting is refused exactly when it would close a cycle. */
  lemma RefusedIffCyclic(tree: Tree, child: string, parent: string)
    requires WellFormed(tree) && Acyclic(tree)
    requires Canonical(child) && FromHex(parent).Some? && SafeSpelling(child, parent)
    ensures Refuses(tree, child, parent) <==> !Acyclic(tree[child := FromHex(parent).value])
  {
    var p := FromHex(parent).value;
    FromHexIsCanonical(parent);
    EmptyIsNoId();
    CycleIffMeets(tree, child, p);
    NoRepeats(tree, parent);
    if child == parent {
      ReachedIn(tree, p, child, 0);
    }
    forall n: nat ensures child != parent ==> (Meets(tree, child, parent, n) <==> Steps(tree, p, n) == child) {
      if n > 0 {
        SpellingOfStart(tree, parent, n);
      }
    }
    if child != parent {
      hide Steps, Acyclic;
      if Reaches(tree, p, child) {
        var n: nat :| Steps(tree, p, n) == child;
        assert Meets(tree, child, parent, n);
      }
      if n: nat :| Meets(tree, child, parent, n) {
        ReachedIn(tree, p, child, n);
      }
    }
  }

  /** One call keeps a healthy tree healthy if its ids are safely spelled. */
  lemma SafeCallKeepsAcyclic(tree: Tree, child: string, parent: string)
    requires WellFormed(tree) && Acyclic(tree) && SafeSpelling(child, parent)
    ensures WellFormed(After(tree, child, parent)) && Acyclic(After(tree, child, parent))
  {
    if FromHex(child).Some? && FromHex(parent).Some? && child != parent {
      FromHexIsCanonical(parent);
      CycleIffMeets(tree, child, FromHex(parent).value);
      RefusedIffCyclic(tree, child, parent);
    }
  }

  /** Two churches, the second possibly under the first: where an unsafe spelling goes wrong. */
  function Witness(c: string, p: string): Tree {
    if c == p then map[c := ""] else map[c := "", p := c]
  }

  lemma WitnessIsHealthy(c: string, p: string)
    requires Canonical(c) && Canonical(p)
    ensures WellFormed(Witness(c, p)) && Acyclic(Witness(c, p))
  {
    var tree := Witness(c, p);
    EmptyIsNoId();
    CanonicalUp(tree, c);
    CanonicalUp(tree, p);
    assert c != "" && p != "";
    hide FromHex, Canonical;
    forall id, n: nat | id in tree && n >= 1 ensures Steps(tree, id, n) != id {
      TopIsLast(tree, n - 1);
      if id == p && p != c && n >= 2 {
        TopIsLast(tree, n - 2);
      }
    }
  }

  /** Spelled unsafely, a re-parenting that closes a cycle goes through. */
  lemma UnsafeCallClosesCycle(child: string, parent: string)
    requires !SafeSpelling(child, parent)
    ensures var tree := Witness(FromHex(child).value, FromHex(parent).value);
            WellFormed(tree) && Acyclic(tree) && !Acyclic(After(tree, child, parent))
  {
    var c, p := FromHex(child).value, FromHex(parent).value;
    var tree := Witness(c, p);
    FromHexIsCanonical(child);
    FromHexIsCanonical(parent);
    EmptyIsNoId();
    WitnessIsHealthy(c, p);
    CycleIffMeets(tree, c, p);
    CanonicalUp(tree, c);
    CanonicalUp(tree, p);
    assert Steps(tree, p, 0) == p && Steps(tree, p, 1) == Steps(tree, Up(tree, p), 0) == Up(tree, p);
    if c == p {
      ReachedIn(tree, p, c, 0);
    } else {
      ReachedIn(tree, p, c, 1);
    }
    if c == p {
      assert Up(tree, parent) == "";
      assert Steps(tree, parent, 1) == Steps(tree, "", 0);
      CleanWalk(tree, child, parent, 1);
    } else {
      assert Up(tree, parent) == c && Up(tree, c) == "";
      assert Steps(tree, parent, 1) == Steps(tree, c, 0) == c;
      assert Steps(tree, parent, 2) == Steps(tree, c, 1) == Steps(tree, "", 0);
      assert Steps(tree, p, 1) == c;
      CleanWalk(tree, child, parent, 2);
    }
  }

  /**
  A call keeps every healthy tree healthy if and only if its ids are safely spelled.
  Unsafe is, for instance, a child's id with a capital hexadecimal digit: the database
  decodes it, the walk's comparison of text does not.
  */
  lemma AcyclicIffSafelySpelled(child: string, parent: string)
    ensures (forall tree :: WellFormed(tree) && Acyclic(tree) ==> Acyclic(After(tree, child, parent)))
            <==> SafeSpelling(child, parent)
  {
    if SafeSpelling(child, parent) {
      forall tree | WellFormed(tree) && Acyclic(tree) ensures Acyclic(After(tree, child, parent)) {
        SafeCallKeepsAcyclic(tree, child, parent);
      }
    } else {
      UnsafeCallClosesCycle(child, parent);
    }
  }

  // ---- whole runs ----------------------------------------------------------------

  /** A new church starts at the top; a church is moved. */
  datatype Change = Found(id: string) | Move(child: string, parent: string)

  ghost function Run(tree: Tree, changes: seq<Change>): Tree {
    if changes == [] then tree
    else
      var before := Run(tree, changes[..|changes| - 1]);
      match changes[|changes| - 1]
      case Found(id) => if id in before || !Canonical(id) then before else before[id := ""]
      case Move(child, parent) => After(before, child, parent)
  }

  /** Over any run of calls with safely spelled ids the hierarchy stays acyclic. */
  lemma {:induction false} RunKeepsAcyclic(tree: Tree, changes: seq<Change>)
    requires WellFormed(tree) && Acyclic(tree)
    requires forall ch :: ch in changes && ch.Move? ==> SafeSpelling(ch.child, ch.parent)
    ensures WellFormed(Run(tree, changes)) && Acyclic(Run(tree, changes))
  {
    hide SafeSpelling, After;
    if changes != [] {
      var init, last := changes[..|changes| - 1], changes[|changes| - 1];
      assert last in changes;
      RunKeepsAcyclic(tree, init);
      var before := Run(tree, init);
      match last
      case Found(id) =>
        if id !in before && Canonical(id) {
          FoundKeepsAcyclic(before, id);
        }
      case Move(child, parent) =>
        SafeCallKeepsAcyclic(before, child, parent);
    }
  }

  lemma FoundKeepsAcyclic(tree: Tree, id: string)
    requires WellFormed(tree) && Acyclic(tree) && id !in tree && Canonical(id)
    ensures WellFormed(tree[id := ""]) && Acyclic(tree[id := ""])
  {
    var grown := tree[id := ""];
    EmptyIsNoId();
    assert id != "";
    hide FromHex, Canonical;
    CanonicalUp(grown, id);
    CanonicalUp(tree, id);
    forall x ensures Up(tree, x) == Up(grown, x) {
      UpAfterFounding(tree, id, x);
    }
    forall x, n: nat | x in grown && n >= 1 ensures Steps(grown, x, n) != x {
      SameSteps(tree, grown, x, n);
      if x == id {
        TopIsLast(grown, n - 1);
      }
    }
  }

  lemma UpAfterFounding(tree: Tree, id: string, x: string)
    requires id !in tree
    ensures Up(tree, x) == Up(tree[id := ""], x)
  {
  }

  lemma {:induction false} SameSteps(tree: Tree, other: Tree, s: string, n: nat)
    requires forall x :: Up(tree, x) == Up(other, x)
    ensures Steps(tree, s, n) == Steps(other, s, n)
    decreases n
  {
    hide Up;
    if n > 0 {
      SameSteps(tree, other, Up(tree, s), n - 1);
    }
  }
}
