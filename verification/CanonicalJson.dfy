/** `write_canonical` and `parse_canonical`: objects are written with sorted keys, so equal bytes mean
    equal values whatever the order of their members. */
module CanonicalJson {
  import opened Outcomes
  import opened JsonTexts

  // ---- key order --------------------------------------------------------------------------

  /** The byte order of keys. */
  predicate Before(a: string, b: string) {
    if b == "" then false
    else if a == "" then true
    else a[0] < b[0] || (a[0] == b[0] && Before(a[1..], b[1..]))
  }

  /** `a` comes first in byte order: it is a proper start of `b`, or smaller where they first differ. */
  ghost predicate Precedes(a: string, b: string) {
    exists n :: DiffersAt(a, b, n) && (n == |a| || (n < |b| && a[n] as int < b[n] as int))
  }

  ghost predicate DiffersAt(a: string, b: string, n: int) {
    && 0 <= n <= |a| && n <= |b| && a[..n] == b[..n]
    && (n < |a| || n < |b|) && (n < |a| && n < |b| ==> a[n] != b[n])
  }

  /** The recursive comparison is the byte order. */
  lemma {:induction false} BeforeIsByteOrder(a: string, b: string)
    ensures Before(a, b) <==> Precedes(a, b)
  {
    if a == "" || b == "" || a[0] != b[0] {
      if a != b { assert DiffersAt(a, b, 0); }
    } else {
      BeforeIsByteOrder(a[1..], b[1..]);
      if Precedes(a[1..], b[1..]) {
        var n :| DiffersAt(a[1..], b[1..], n) && (n == |a[1..]| || (n < |b[1..]| && a[1..][n] as int < b[1..][n] as int));
        assert a[..n + 1] == [a[0]] + a[1..][..n] && b[..n + 1] == [b[0]] + b[1..][..n];
        assert DiffersAt(a, b, n + 1);
      }
      if Precedes(a, b) {
        var n :| DiffersAt(a, b, n) && (n == |a| || (n < |b| && a[n] as int < b[n] as int));
        assert a[1..][..n - 1] == a[..n][1..] && b[1..][..n - 1] == b[..n][1..];
        assert DiffersAt(a[1..], b[1..], n - 1);
      }
    }
  }

  lemma {:induction false} BeforeIsTotal(a: string, b: string)
    ensures a == b || Before(a, b) || Before(b, a)
    ensures !(Before(a, b) && Before(b, a)) && !Before(a, a)
  {
    if a != "" && b != "" {
      BeforeIsTotal(a[1..], b[1..]);
      assert a == [a[0]] + a[1..] && b == [b[0]] + b[1..];
    }
    if a != "" { BeforeIsTotal(a[1..], a[1..]); }
  }

  lemma {:induction false} BeforeIsTransitive(a: string, b: string, c: string)
    requires Before(a, b) && Before(b, c)
    ensures Before(a, c)
  {
    if a != "" { BeforeIfSameStart(a, b, c); }
  }

  lemma {:induction false} BeforeIfSameStart(a: string, b: string, c: string)
    requires a != "" && Before(a, b) && Before(b, c)
    ensures Before(a, c)
  {
    if a[0] == b[0] == c[0] && a[1..] != "" { BeforeIfSameStart(a[1..], b[1..], c[1..]); }
  }

  ghost predicate SortedByKey(members: seq<Member>) {
    forall i, j :: 0 <= i < j < |members| ==> Before(members[i].key, members[j].key)
  }

  ghost predicate DistinctKeys(members: seq<Member>) {
    forall i, j :: 0 <= i < j < |members| ==> members[i].key != members[j].key
  }

  function Insert(m: Member, sorted: seq<Member>): (r: seq<Member>)
    ensures multiset(r) == multiset(sorted) + multiset{m}
  {
    if sorted == [] then [m]
    else if Before(m.key, sorted[0].key) then [m] + sorted
    else
      assert sorted == [sorted[0]] + sorted[1..];
      [sorted[0]] + Insert(m, sorted[1..])
  }

  /** The members in the order in which `write_canonical` visits them. */
  function SortMembers(members: seq<Member>): (r: seq<Member>)
    ensures multiset(r) == multiset(members)
    ensures |r| == |members|
  {
    if members == [] then []
    else
      assert members == [members[0]] + members[1..];
      var r := Insert(members[0], SortMembers(members[1..]));
      assert |multiset(r)| == |r| && |multiset(members)| == |members|;
      r
  }

  lemma {:induction false} InsertKeepsSorted(m: Member, sorted: seq<Member>)
    requires SortedByKey(sorted) && forall i :: 0 <= i < |sorted| ==> sorted[i].key != m.key
    ensures SortedByKey(Insert(m, sorted))
  {
    if sorted != [] {
      BeforeIsTotal(m.key, sorted[0].key);
      if Before(m.key, sorted[0].key) {
        forall i | 0 <= i < |sorted| ensures Before(m.key, sorted[i].key) {
          if i > 0 { BeforeIsTransitive(m.key, sorted[0].key, sorted[i].key); }
        }
      } else {
        InsertKeepsSorted(m, sorted[1..]);
        var r := Insert(m, sorted[1..]);
        forall x | x in r ensures Before(sorted[0].key, x.key) {
          assert x in multiset(r);
          assert x == m || x in sorted[1..];
        }
      }
    }
  }

  lemma {:induction false} SortIsSorted(members: seq<Member>)
    requires DistinctKeys(members)
    ensures SortedByKey(SortMembers(members))
  {
    if members != [] {
      SortIsSorted(members[1..]);
      var rest := SortMembers(members[1..]);
      forall i | 0 <= i < |rest| ensures rest[i].key != members[0].key {
        assert rest[i] in multiset(rest);
        assert rest[i] in members[1..];
      }
      InsertKeepsSorted(members[0], rest);
    }
  }

  lemma HeadIsMember(a: seq<Member>)
    ensures a != [] ==> a[0] in a
  {}

  /** Two sorted lists with the same members start with the same one. */
  lemma SameHead(a: seq<Member>, b: seq<Member>)
    requires SortedByKey(a) && SortedByKey(b) && a != [] && b != [] && a[0] in b && b[0] in a
    ensures a[0] == b[0]
  {
    var i :| 0 <= i < |b| && b[i] == a[0];
    var j :| 0 <= j < |a| && a[j] == b[0];
    BeforeIsTotal(a[0].key, b[0].key);
  }

  /** A set of members has one sorted order. */
  lemma {:induction false} SortedOrderIsUnique(a: seq<Member>, b: seq<Member>)
    requires SortedByKey(a) && SortedByKey(b) && forall m :: m in a <==> m in b
    ensures a == b
  {
    HeadIsMember(a);
    HeadIsMember(b);
    if a != [] {
      SameHead(a, b);
      forall m ensures m in a[1..] <==> m in b[1..] {
        TailMembers(a, m);
        TailMembers(b, m);
      }
      SortedOrderIsUnique(a[1..], b[1..]);
      assert a == [a[0]] + a[1..] && b == [b[0]] + b[1..];
    }
  }

  lemma TailMembers(a: seq<Member>, m: Member)
    requires a != [] && SortedByKey(a)
    ensures m in a[1..] <==> m in a && m != a[0]
  {
    BeforeIsTotal(m.key, m.key);
    if m in a[1..] {
      var i :| 0 <= i < |a[1..]| && a[1..][i] == m;
      assert Before(a[0].key, a[i + 1].key);
    }
    if m in a && m != a[0] {
      var i :| 0 <= i < |a| && a[i] == m;
      assert a[1..][i - 1] == m;
    }
  }

  // ---- equality regardless of member order ------------------------------------------------

  /** No object has a key twice, as in every parsed value. */
  ghost predicate WellFormed(v: Value)
    decreases v
  {
    match v
    case Arr(items) => forall i :: 0 <= i < |items| ==> WellFormed(items[i])
    case Obj(members) => DistinctKeys(members) && forall i :: 0 <= i < |members| ==> WellFormed(members[i].value)
    case _ => true
  }

  /** The same value up to the order of object members, at every depth. */
  ghost predicate Same(v: Value, w: Value)
    decreases v
  {
    match v
    case Arr(items) =>
      w.Arr? && |items| == |w.items| && forall i :: 0 <= i < |items| ==> Same(items[i], w.items[i])
    case Obj(members) =>
      && w.Obj? && |members| == |w.members|
      && forall i :: 0 <= i < |members| ==> Matched(members, w.members, i)
    case _ => v == w
  }

  /** The i-th member has a partner with the same key and the same value. */
  ghost predicate Matched(members: seq<Member>, others: seq<Member>, i: nat)
    requires i < |members|
    decreases members
  {
    exists j :: 0 <= j < |others| && members[i].key == others[j].key && Same(members[i].value, others[j].value)
  }

  /** The value with the members of every object in key order. */
  function Normalize(v: Value): Value
    decreases v
  {
    match v
    case Arr(items) => Arr(seq(|items|, i requires 0 <= i < |items| => Normalize(items[i])))
    case Obj(members) => Obj(SortMembers(NormalizeMembers(members)))
    case _ => v
  }

  function NormalizeMembers(members: seq<Member>): (r: seq<Member>)
    ensures |r| == |members|
    ensures forall i :: 0 <= i < |members| ==> r[i] == Member(members[i].key, Normalize(members[i].value))
    decreases members
  {
    seq(|members|, i requires 0 <= i < |members| => Member(members[i].key, Normalize(members[i].value)))
  }

  /** The output of `write_canonical`. */
  function Canonical(v: Value): string { Encode(Normalize(v)) }

  lemma {:induction false} NormalizeKeepsNoFloat(v: Value)
    ensures NoFloat(Normalize(v)) <==> NoFloat(v)
    decreases v
  {
    match v {
      case Arr(items) =>
        forall i | 0 <= i < |items| ensures NoFloat(Normalize(items[i])) <==> NoFloat(items[i]) { NormalizeKeepsNoFloat(items[i]); }
        var n := Normalize(v);
        assert forall i :: 0 <= i < |items| ==> n.items[i] == Normalize(items[i]);
      case Obj(members) =>
        forall i | 0 <= i < |members| ensures NoFloat(Normalize(members[i].value)) <==> NoFloat(members[i].value) {
          NormalizeKeepsNoFloat(members[i].value);
        }
        SameElements(NormalizeMembers(members));
        AllNoFloat(NormalizeMembers(members), Normalize(v).members);
      case _ =>
    }
  }

  lemma AllNoFloat(a: seq<Member>, b: seq<Member>)
    requires forall m :: m in a <==> m in b
    ensures (forall i :: 0 <= i < |a| ==> NoFloat(a[i].value)) <==> (forall i :: 0 <= i < |b| ==> NoFloat(b[i].value))
  {
    assert forall i :: 0 <= i < |a| ==> a[i] in b;
    assert forall i :: 0 <= i < |b| ==> b[i] in a;
  }

  lemma SameElements(members: seq<Member>)
    ensures forall m :: m in members <==> m in SortMembers(members)
  {
    forall m ensures m in members <==> m in SortMembers(members) {
      assert m in multiset(members) <==> m in multiset(SortMembers(members));
    }
  }

  /** Normal forms agree exactly when the values are the same up to member order. */
  lemma {:induction false} NormalFormDecides(v: Value, w: Value)
    requires WellFormed(v) && WellFormed(w)
    ensures Normalize(v) == Normalize(w) <==> Same(v, w)
    decreases v
  {
    if v.Arr? && w.Arr? {
      ItemsDecide(v, w);
    } else if v.Obj? && w.Obj? {
      MembersDecide(v.members, w.members);
    }
  }

  lemma {:induction false} ItemsDecide(v: Value, w: Value)
    requires v.Arr? && w.Arr? && WellFormed(v) && WellFormed(w)
    ensures Normalize(v) == Normalize(w) <==> Same(v, w)
    decreases v, 0
  {
    var a, b := Normalize(v).items, Normalize(w).items;
    if |a| == |b| {
      forall i | 0 <= i < |a| ensures a[i] == b[i] <==> Same(v.items[i], w.items[i]) {
        NormalFormDecides(v.items[i], w.items[i]);
      }
    }
    assert |a| == |b| && (forall i :: 0 <= i < |a| ==> a[i] == b[i]) ==> a == b;
  }

  /** A member has a partner exactly when its normal form is among the others'. */
  lemma {:induction false} MemberDecides(members: seq<Member>, others: seq<Member>, i: nat)
    requires i < |members| && WellFormed(members[i].value)
    requires forall j :: 0 <= j < |others| ==> WellFormed(others[j].value)
    ensures Matched(members, others, i) <==> NormalizeMembers(members)[i] in NormalizeMembers(others)
    decreases members, 0
  {
    var a, b := NormalizeMembers(members), NormalizeMembers(others);
    forall j | 0 <= j < |others|
      ensures a[i] == b[j] <==> members[i].key == others[j].key && Same(members[i].value, others[j].value)
    {
      NormalFormDecides(members[i].value, others[j].value);
    }
    if Matched(members, others, i) {
      var j :| 0 <= j < |others| && members[i].key == others[j].key && Same(members[i].value, others[j].value);
      assert a[i] == b[j];
    }
    if a[i] in b {
      var j :| 0 <= j < |b| && b[j] == a[i];
    }
  }

  lemma {:induction false} MembersDecide(members: seq<Member>, others: seq<Member>)
    requires WellFormed(Obj(members)) && WellFormed(Obj(others))
    ensures Normalize(Obj(members)) == Normalize(Obj(others)) <==> Same(Obj(members), Obj(others))
    decreases members, 1
  {
    var a, b := NormalizeMembers(members), NormalizeMembers(others);
    forall i | 0 <= i < |members| ensures Matched(members, others, i) <==> a[i] in b {
      MemberDecides(members, others, i);
    }
    SortedAgree(a, b);
  }

  /** Two lists with distinct keys sort to the same list exactly when they have the same length and each
      member of one is in the other. */
  lemma SortedAgree(a: seq<Member>, b: seq<Member>)
    requires DistinctKeys(a) && DistinctKeys(b)
    ensures SortMembers(a) == SortMembers(b) <==> |a| == |b| && forall i :: 0 <= i < |a| ==> a[i] in b
  {
    SameElements(a);
    SameElements(b);
    if |a| == |b| && forall i :: 0 <= i < |a| ==> a[i] in b {
      SubsetOfSameSize(a, b);
      SortIsSorted(a);
      SortIsSorted(b);
      SortedOrderIsUnique(SortMembers(a), SortMembers(b));
    }
    if SortMembers(a) == SortMembers(b) {
      forall i | 0 <= i < |a| ensures a[i] in b { assert a[i] in SortMembers(a); }
    }
  }

  /** Distinct members that all occur in a list of the same length are all of it. */
  lemma {:induction false} SubsetOfSameSize(a: seq<Member>, b: seq<Member>)
    requires |a| == |b| && DistinctKeys(a) && forall i :: 0 <= i < |a| ==> a[i] in b
    ensures forall m :: m in a <==> m in b
  {
    var left, right := set i | 0 <= i < |a| :: a[i], set i | 0 <= i < |b| :: b[i];
    Cardinality(a);
    AtMost(b);
    assert left <= right;
    SubsetCardinality(left, right);
    forall m ensures m in a <==> m in b {
      assert m in left <==> m in a;
      assert m in right <==> m in b;
    }
  }

  lemma {:induction false} Cardinality(a: seq<Member>)
    requires DistinctKeys(a)
    ensures |set i | 0 <= i < |a| :: a[i]| == |a|
  {
    if a != [] {
      var front := a[..|a| - 1];
      Cardinality(front);
      var s := set i | 0 <= i < |front| :: front[i];
      assert (set i | 0 <= i < |a| :: a[i]) == s + {a[|a| - 1]};
      assert a[|a| - 1] !in s;
    }
  }

  lemma {:induction false} AtMost(b: seq<Member>)
    ensures |set i | 0 <= i < |b| :: b[i]| <= |b|
  {
    if b != [] {
      var front := b[..|b| - 1];
      AtMost(front);
      var s := set i | 0 <= i < |front| :: front[i];
      assert (set i | 0 <= i < |b| :: b[i]) == s + {b[|b| - 1]};
    }
  }

  lemma SubsetCardinality(left: set<Member>, right: set<Member>)
    requires left <= right && |left| >= |right|
    ensures left == right
  {
    assert right == left + (right - left);
    assert |right| == |left| + |right - left|;
  }

  /** Canonical JSON is uniquely readable: two values of any depth have the same canonical text exactly
      when they are the same up to the order of object members. */
  lemma CanonicalIsUnique(v: Value, w: Value)
    requires WellFormed(v) && WellFormed(w) && NoFloat(v) && NoFloat(w)
    ensures Canonical(v) == Canonical(w) <==> Same(v, w)
  {
    NormalFormDecides(v, w);
    if Canonical(v) == Canonical(w) {
      NormalizeKeepsNoFloat(v);
      NormalizeKeepsNoFloat(w);
      assert Canonical(v) + "" == Canonical(v) && Canonical(w) + "" == Canonical(w);
      ValueReadsOnce(Normalize(v), Normalize(w), "", "");
    }
  }

  /** `parse_canonical` with any JSON parser: the text must be the canonical text of what was parsed. */
  predicate Accepts(text: string, parse: string -> Option<Value>) {
    parse(text).Some? && NoFloat(parse(text).value) && Canonical(parse(text).value) == text
  }

  /** One value has one accepted text, and one accepted text has one value. */
  lemma AcceptedTextsAreUnique(a: string, b: string, parse: string -> Option<Value>)
    requires Accepts(a, parse) && Accepts(b, parse)
    requires WellFormed(parse(a).value) && WellFormed(parse(b).value)
    ensures a == b <==> Same(parse(a).value, parse(b).value)
  {
    CanonicalIsUnique(parse(a).value, parse(b).value);
  }

  // ---- what a reader finds in the text ------------------------------------------------------

  /** The members of every object, at every depth, are in byte order of their keys. */
  ghost predicate Ordered(v: Value)
    decreases v
  {
    match v
    case Arr(items) => forall i :: 0 <= i < |items| ==> Ordered(items[i])
    case Obj(members) =>
      && (forall i, j :: 0 <= i < j < |members| ==> Precedes(members[i].key, members[j].key))
      && forall i :: 0 <= i < |members| ==> Ordered(members[i].value)
    case _ => true
  }

  /** The normal form is the same value, with its members in byte order. */
  lemma {:induction false} NormalFormIsOrdered(v: Value)
    requires WellFormed(v)
    ensures Same(v, Normalize(v)) && Ordered(Normalize(v)) && WellFormed(Normalize(v))
    decreases v
  {
    match v {
      case Arr(items) =>
        forall i | 0 <= i < |items|
          ensures Same(items[i], Normalize(items[i])) && Ordered(Normalize(items[i])) && WellFormed(Normalize(items[i]))
        {
          NormalFormIsOrdered(items[i]);
        }
      case Obj(members) =>
        forall i | 0 <= i < |members| ensures NormalMember(members[i], NormalizeMembers(members)[i]) {
          NormalFormIsOrdered(members[i].value);
        }
        SortedMembers(members, NormalizeMembers(members), SortMembers(NormalizeMembers(members)));
      case _ =>
    }
  }

  ghost predicate NormalMember(m: Member, normal: Member) {
    normal.key == m.key && Same(m.value, normal.value) && Ordered(normal.value) && WellFormed(normal.value)
  }

  lemma SortedMembers(members: seq<Member>, normal: seq<Member>, sorted: seq<Member>)
    requires DistinctKeys(members) && |normal| == |members| && sorted == SortMembers(normal)
    requires forall i :: 0 <= i < |members| ==> NormalMember(members[i], normal[i])
    ensures Same(Obj(members), Obj(sorted)) && Ordered(Obj(sorted)) && WellFormed(Obj(sorted))
  {
    SortIsSorted(normal);
    SameElements(normal);
    AllMatched(members, normal, sorted);
    KeysPrecede(sorted);
    forall i | 0 <= i < |sorted| ensures Ordered(sorted[i].value) && WellFormed(sorted[i].value) {
      NormalOf(members, normal, sorted[i]);
    }
  }

  lemma NormalOf(members: seq<Member>, normal: seq<Member>, m: Member)
    requires |normal| == |members| && m in normal
    requires forall i :: 0 <= i < |members| ==> NormalMember(members[i], normal[i])
    ensures Ordered(m.value) && WellFormed(m.value)
  {
    var j :| 0 <= j < |normal| && normal[j] == m;
    assert NormalMember(members[j], normal[j]);
  }

  lemma AllMatched(members: seq<Member>, normal: seq<Member>, sorted: seq<Member>)
    requires |normal| == |members| && forall m :: m in normal <==> m in sorted
    requires forall i :: 0 <= i < |members| ==> NormalMember(members[i], normal[i])
    ensures forall i :: 0 <= i < |members| ==> Matched(members, sorted, i)
  {
    forall i | 0 <= i < |members| ensures Matched(members, sorted, i) {
      assert NormalMember(members[i], normal[i]) && normal[i] in sorted;
      var j :| 0 <= j < |sorted| && sorted[j] == normal[i];
    }
  }

  lemma KeysPrecede(sorted: seq<Member>)
    requires SortedByKey(sorted)
    ensures DistinctKeys(sorted)
    ensures forall i, j :: 0 <= i < j < |sorted| ==> Precedes(sorted[i].key, sorted[j].key)
  {
    forall i, j | 0 <= i < j < |sorted|
      ensures Precedes(sorted[i].key, sorted[j].key) && sorted[i].key != sorted[j].key
    {
      BeforeIsByteOrder(sorted[i].key, sorted[j].key);
      BeforeIsTotal(sorted[i].key, sorted[j].key);
    }
  }

  /** The text of a value is the text of its normal form, and is read as that. */
  lemma TextOfNormalForm(v: Value)
    requires WellFormed(v) && NoFloat(v)
    ensures ReadValue(Canonical(v)) == Some((Normalize(v), ""))
    ensures NoFloat(Normalize(v)) && Canonical(Normalize(v)) == Canonical(v)
  {
    NormalizeKeepsNoFloat(v);
    NormalFormIsOrdered(v);
    ValueReadsBack(Normalize(v), "");
    assert Canonical(v) + "" == Canonical(v);
    CanonicalIsUnique(v, Normalize(v));
  }

  /** Reading the canonical text back gives the same value and nothing else, with the members of every
      object in byte order. */
  lemma CanonicalReadsBack(v: Value)
    requires WellFormed(v) && NoFloat(v)
    ensures var read := ReadValue(Canonical(v));
      read.Some? && read.value.1 == "" && Same(v, read.value.0) && Ordered(read.value.0)
  {
    TextOfNormalForm(v);
    NormalFormIsOrdered(v);
  }

  /** The parser gives what the grammar says. */
  ghost predicate ReadsGrammar(parse: string -> Option<Value>) {
    forall v :: NoFloat(v) ==> ParsesText(parse, Encode(v), v)
  }

  ghost predicate ParsesText(parse: string -> Option<Value>, text: string, v: Value) {
    ReadValue(text) == Some((v, "")) ==> parse(text) == Some(v)
  }

  /** The canonical text of every value is accepted, by any parser that reads what the grammar says. */
  lemma CanonicalIsAccepted(v: Value, parse: string -> Option<Value>)
    requires WellFormed(v) && NoFloat(v) && ReadsGrammar(parse)
    ensures Accepts(Canonical(v), parse)
  {
    TextOfNormalForm(v);
    assert ParsesText(parse, Encode(Normalize(v)), Normalize(v));
  }

  // ---- the writer -------------------------------------------------------------------------

  function NormalizeMember(m: Member): Member { Member(m.key, Normalize(m.value)) }

  lemma NormalizeCons(m: Member, rest: seq<Member>)
    ensures NormalizeMembers([m] + rest) == [NormalizeMember(m)] + NormalizeMembers(rest)
  {}

  /** Sorting and normalizing the members commute, because sorting looks at keys only. */
  lemma {:induction false} InsertCommutes(m: Member, sorted: seq<Member>)
    ensures NormalizeMembers(Insert(m, sorted)) == Insert(NormalizeMember(m), NormalizeMembers(sorted))
  {
    NormalizeCons(m, sorted);
    if sorted != [] {
      var head, rest := sorted[0], sorted[1..];
      NormalizeCons(head, rest);
      assert sorted == [head] + rest;
      InsertStep(m, head, rest);
      InsertStep(NormalizeMember(m), NormalizeMember(head), NormalizeMembers(rest));
      InsertCommutes(m, rest);
      NormalizeCons(head, Insert(m, rest));
    } else {
      assert NormalizeMembers([]) == [] && [m] + [] == [m];
    }
  }

  lemma InsertStep(m: Member, head: Member, rest: seq<Member>)
    ensures Insert(m, [head] + rest) == if Before(m.key, head.key) then [m] + ([head] + rest) else [head] + Insert(m, rest)
  {
    assert ([head] + rest)[1..] == rest;
  }

  lemma {:induction false} SortCommutes(members: seq<Member>)
    ensures SortMembers(NormalizeMembers(members)) == NormalizeMembers(SortMembers(members))
  {
    if members != [] {
      var head, rest := members[0], members[1..];
      SortCommutes(rest);
      InsertCommutes(head, SortMembers(rest));
      NormalizeCons(head, rest);
      assert members == [head] + rest;
      SortStep(head, rest);
      SortStep(NormalizeMember(head), NormalizeMembers(rest));
    } else {
      assert NormalizeMembers([]) == [];
    }
  }

  lemma SortStep(head: Member, rest: seq<Member>)
    ensures SortMembers([head] + rest) == Insert(head, SortMembers(rest))
  {
    assert ([head] + rest)[1..] == rest;
  }

  /** The text of the first `k` items. */
  function ItemsUpTo(items: seq<Value>, k: nat): string
    requires k <= |items|
  {
    if k == 0 then "" else ItemsUpTo(items, k - 1) + Comma(k - 1) + Encode(items[k - 1])
  }

  lemma {:induction false} ItemsSplit(items: seq<Value>, k: nat)
    requires k <= |items|
    ensures ItemsUpTo(items, k) + EncodeItems(items, k) == EncodeItems(items, 0)
  {
    if k > 0 {
      ItemsSplit(items, k - 1);
      RegroupFour(ItemsUpTo(items, k - 1), Comma(k - 1), Encode(items[k - 1]), EncodeItems(items, k));
    }
  }

  lemma RegroupFour(a: string, b: string, c: string, d: string)
    ensures a + (b + c + d) == a + b + c + d
  {}

  function MemberText(m: Member): string { EncodeString(m.key) + ":" + Canonical(m.value) }

  /** The first `k` texts, each but the very first after a comma. */
  function Joined(texts: seq<string>, k: nat): string
    requires k <= |texts|
  {
    if k == 0 then "" else Joined(texts, k - 1) + (Comma(k - 1) + texts[k - 1])
  }

  lemma {:induction false} MembersSplit(members: seq<Member>, texts: seq<string>, k: nat)
    requires k <= |members| == |texts|
    requires forall i :: 0 <= i < |members| ==> texts[i] == EncodeString(members[i].key) + ":" + Encode(members[i].value)
    ensures Joined(texts, k) + EncodeMembers(members, k) == EncodeMembers(members, 0)
  {
    if k > 0 {
      MembersSplit(members, texts, k - 1);
      EncodeMembersStep(members, k, texts[k - 1]);
      assert Joined(texts, k) == Joined(texts, k - 1) + (Comma(k - 1) + texts[k - 1]);
      RegroupThree(Joined(texts, k - 1), Comma(k - 1), texts[k - 1], EncodeMembers(members, k));
    }
  }

  lemma EncodeMembersStep(members: seq<Member>, k: nat, text: string)
    requires 0 < k <= |members| && text == EncodeString(members[k - 1].key) + ":" + Encode(members[k - 1].value)
    ensures EncodeMembers(members, k - 1) == Comma(k - 1) + text + EncodeMembers(members, k)
  {
    RegroupFive(Comma(k - 1), EncodeString(members[k - 1].key), Encode(members[k - 1].value), EncodeMembers(members, k));
  }

  lemma RegroupThree(a: string, b: string, c: string, d: string)
    ensures a + (b + c + d) == a + (b + c) + d
  {}

  lemma RegroupFive(b: string, c: string, d: string, e: string)
    ensures b + c + ":" + d + e == b + (c + ":" + d) + e
  {}

  lemma StartOfJoined(start: string, texts: seq<string>)
    ensures start + Joined(texts, 0) == start
  {}

  lemma StartOfItems(start: string, items: seq<Value>)
    ensures start + ItemsUpTo(items, 0) == start
  {}

  /** The output buffer of `write_canonical`. */
  class Output {
    var bytes: string

    constructor ()
      ensures bytes == ""
    {
      bytes := "";
    }

    method Push(text: string)
      modifies this
      ensures bytes == old(bytes) + text
    {
      bytes := bytes + text;
    }

    /** `write_canonical`: it appends the canonical text, and fails exactly on a value with a floating-
        point number somewhere in it. */
    method Write(v: Value) returns (r: Outcome)
      modifies this
      ensures r.Done? <==> NoFloat(v)
      ensures r.Done? ==> bytes == old(bytes) + Canonical(v)
      ensures !r.Done? ==> r == Failed(JsonInvalid)
      decreases v, 0
    {
      r := Done;
      match v {
        case Null => Push("null");
        case Bool(b) => Push(if b then "true" else "false");
        case Number(n) => Push(EncodeNumber(n));
        case Float(_) => return Failed(JsonInvalid);
        case Str(s) => Push(EncodeString(s));
        case Arr(items) => r := WriteItems(items, v);
        case Obj(members) => r := WriteMembers(members, v);
      }
    }

    /** The item after `index` others, of which `start` and the texts before it are already written. */
    method WriteItem(items: seq<Value>, index: nat, ghost start: string, ghost normal: seq<Value>) returns (r: Outcome)
      requires index < |items| == |normal| && normal[index] == Normalize(items[index])
      requires bytes == start + ItemsUpTo(normal, index) && FiniteItems(items, index)
      modifies this
      ensures r.Done? ==> bytes == start + ItemsUpTo(normal, index + 1) && FiniteItems(items, index + 1)
      ensures !r.Done? ==> r == Failed(JsonInvalid) && !FiniteItems(items, |items|)
      decreases items, 0
    {
      if index != 0 { Push(","); }
      r := Write(items[index]);
      FiniteItemAt(items, |items|, index);
      RegroupFour(start, ItemsUpTo(normal, index), Comma(index), Encode(normal[index]));
    }

    method WriteItems(items: seq<Value>, ghost v: Value) returns (r: Outcome)
      requires v == Arr(items)
      modifies this
      ensures r.Done? <==> NoFloat(v)
      ensures r.Done? ==> bytes == old(bytes) + Canonical(v)
      ensures !r.Done? ==> r == Failed(JsonInvalid)
      decreases items, 2
    {
      ghost var start, normal := bytes, Normalize(v).items;
      FiniteItemsMeansAll(items, |items|);
      CanonicalOfArray(items);
      Push("[");
      r := WriteEach(items, normal);
      if !r.Done? { return; }
      Push("]");
      RegroupAppend(start, "[", ItemsUpTo(normal, |items|), "]");
    }

    method WriteEach(items: seq<Value>, ghost normal: seq<Value>) returns (r: Outcome)
      requires |normal| == |items| && forall i :: 0 <= i < |items| ==> normal[i] == Normalize(items[i])
      modifies this
      ensures r.Done? <==> FiniteItems(items, |items|)
      ensures r.Done? ==> bytes == old(bytes) + ItemsUpTo(normal, |items|)
      ensures !r.Done? ==> r == Failed(JsonInvalid)
      decreases items, 1
    {
      ghost var start := bytes;
      r := Done;
      StartOfItems(start, normal);
      for index := 0 to |items|
        invariant bytes == start + ItemsUpTo(normal, index) && FiniteItems(items, index) && r.Done?
      {
        r := WriteItem(items, index, start, normal);
        if !r.Done? { return; }
      }
    }

    /** One member, after a comma unless it is the first. */
    method WriteMember(m: Member, first: bool, ghost text: string, ghost members: seq<Member>) returns (r: Outcome)
      requires m in members && text == MemberText(m)
      modifies this
      ensures r.Done? <==> NoFloat(m.value)
      ensures r.Done? ==> bytes == old(bytes) + ((if first then "" else ",") + text)
      ensures !r.Done? ==> r == Failed(JsonInvalid)
      decreases members, 0
    {
      ghost var before := bytes;
      if !first { Push(","); }
      Push(EncodeString(m.key));
      Push(":");
      r := Write(m.value);
      if r.Done? { RegroupOne(before, if first then "" else ",", EncodeString(m.key), Canonical(m.value)); }
    }

    /** The member after `index` others, of which `start` and the texts before it are already written. */
    method WriteNth(sorted: seq<Member>, index: nat, ghost start: string, ghost texts: seq<string>, ghost members: seq<Member>)
      returns (r: Outcome)
      requires index < |sorted| == |texts| && Planned(sorted, texts, members, |sorted|)
      requires bytes == start + Joined(texts, index) && Finite(sorted, index)
      modifies this
      ensures r.Done? ==> bytes == start + Joined(texts, index + 1) && Finite(sorted, index + 1)
      ensures !r.Done? ==> r == Failed(JsonInvalid) && !Finite(sorted, |sorted|)
      decreases members, 1
    {
      PlannedAt(sorted, texts, members, |sorted|, index);
      FiniteAt(sorted, |sorted|, index);
      r := WriteMember(sorted[index], index == 0, texts[index], members);
      RegroupTwo(start, Joined(texts, index), Comma(index) + texts[index]);
    }

    method WriteSorted(sorted: seq<Member>, ghost texts: seq<string>, ghost members: seq<Member>) returns (r: Outcome)
      requires |texts| == |sorted| && Planned(sorted, texts, members, |sorted|)
      modifies this
      ensures r.Done? <==> Finite(sorted, |sorted|)
      ensures r.Done? ==> bytes == old(bytes) + Joined(texts, |texts|)
      ensures !r.Done? ==> r == Failed(JsonInvalid)
      decreases members, 2
    {
      ghost var start := bytes;
      r := Done;
      StartOfJoined(start, texts);
      for index := 0 to |sorted|
        invariant bytes == start + Joined(texts, index) && Finite(sorted, index) && r.Done?
      {
        r := WriteNth(sorted, index, start, texts, members);
        if !r.Done? { return; }
      }
    }

    method WriteMembers(members: seq<Member>, ghost v: Value) returns (r: Outcome)
      requires v == Obj(members)
      modifies this
      ensures r.Done? <==> NoFloat(v)
      ensures r.Done? ==> bytes == old(bytes) + Canonical(v)
      ensures !r.Done? ==> r == Failed(JsonInvalid)
      decreases members, 3
    {
      ghost var start := bytes;
      ghost var texts := TextsOf(SortMembers(members));
      SortedNoFloat(members);
      FiniteMeansAll(SortMembers(members), |members|);
      PlanAll(SortMembers(members), members, |members|);
      CanonicalOfObject(members);
      Push("{");
      r := WriteSorted(SortMembers(members), texts, members);
      if !r.Done? { return; }
      Push("}");
      RegroupAppend(start, "{", Joined(texts, |texts|), "}");
    }
  }

  /** The first `n` sorted members are members of the object, and their texts are known. */
  ghost predicate Planned(sorted: seq<Member>, texts: seq<string>, members: seq<Member>, n: nat)
    requires n <= |sorted| == |texts|
  {
    n == 0 || (Planned(sorted, texts, members, n - 1) && sorted[n - 1] in members && texts[n - 1] == MemberText(sorted[n - 1]))
  }

  lemma {:induction false} PlannedAt(sorted: seq<Member>, texts: seq<string>, members: seq<Member>, n: nat, k: nat)
    requires k < n <= |sorted| == |texts| && Planned(sorted, texts, members, n)
    ensures sorted[k] in members && texts[k] == MemberText(sorted[k])
  {
    if k < n - 1 { PlannedAt(sorted, texts, members, n - 1, k); }
  }

  lemma {:induction false} PlanAll(sorted: seq<Member>, members: seq<Member>, n: nat)
    requires n <= |sorted| && forall i :: 0 <= i < |sorted| ==> sorted[i] in members
    ensures Planned(sorted, TextsOf(sorted), members, n)
  {
    if n > 0 { PlanAll(sorted, members, n - 1); }
  }

  predicate FiniteItems(items: seq<Value>, n: nat)
    requires n <= |items|
  {
    n == 0 || (FiniteItems(items, n - 1) && NoFloat(items[n - 1]))
  }

  lemma {:induction false} FiniteItemAt(items: seq<Value>, n: nat, k: nat)
    requires k < n <= |items|
    ensures FiniteItems(items, n) ==> NoFloat(items[k])
  {
    if k < n - 1 { FiniteItemAt(items, n - 1, k); }
  }

  lemma {:induction false} FiniteItemsMeansAll(items: seq<Value>, n: nat)
    requires n <= |items|
    ensures FiniteItems(items, n) <==> forall i :: 0 <= i < n ==> NoFloat(items[i])
  {
    if n > 0 { FiniteItemsMeansAll(items, n - 1); }
  }

  lemma CanonicalOfArray(items: seq<Value>)
    ensures var normal := Normalize(Arr(items)).items; Canonical(Arr(items)) == "[" + ItemsUpTo(normal, |normal|) + "]"
  {
    var normal := Normalize(Arr(items)).items;
    ItemsSplit(normal, |normal|);
    assert ItemsUpTo(normal, |normal|) + "" == ItemsUpTo(normal, |normal|);
  }

  predicate Finite(sorted: seq<Member>, n: nat)
    requires n <= |sorted|
  {
    n == 0 || (Finite(sorted, n - 1) && NoFloat(sorted[n - 1].value))
  }

  lemma {:induction false} FiniteAt(sorted: seq<Member>, n: nat, k: nat)
    requires k < n <= |sorted|
    ensures Finite(sorted, n) ==> NoFloat(sorted[k].value)
  {
    if k < n - 1 { FiniteAt(sorted, n - 1, k); }
  }

  lemma {:induction false} FiniteMeansAll(sorted: seq<Member>, n: nat)
    requires n <= |sorted|
    ensures Finite(sorted, n) <==> forall i :: 0 <= i < n ==> NoFloat(sorted[i].value)
  {
    if n > 0 { FiniteMeansAll(sorted, n - 1); }
  }

  function TextsOf(members: seq<Member>): (texts: seq<string>)
    ensures |texts| == |members| && forall i :: 0 <= i < |members| ==> texts[i] == MemberText(members[i])
  {
    seq(|members|, i requires 0 <= i < |members| => MemberText(members[i]))
  }

  lemma SortedNoFloat(members: seq<Member>)
    ensures NoFloat(Obj(members)) <==> forall i :: 0 <= i < |SortMembers(members)| ==> NoFloat(SortMembers(members)[i].value)
    ensures forall i :: 0 <= i < |SortMembers(members)| ==> SortMembers(members)[i] in members
  {
    var sorted := SortMembers(members);
    SameElements(members);
    AllNoFloat(members, sorted);
    NoFloatOfObject(members);
    forall i | 0 <= i < |sorted| ensures sorted[i] in members { assert sorted[i] in sorted; }
  }

  lemma NoFloatOfObject(members: seq<Member>)
    ensures NoFloat(Obj(members)) <==> forall i :: 0 <= i < |members| ==> NoFloat(members[i].value)
  {
    var v := Obj(members);
    assert NoFloat(v) <==> forall i :: 0 <= i < |v.members| ==> NoFloat(v.members[i].value);
  }

  lemma EncodeObject(normal: seq<Member>, texts: seq<string>)
    requires |normal| == |texts|
    requires forall i :: 0 <= i < |normal| ==> texts[i] == EncodeString(normal[i].key) + ":" + Encode(normal[i].value)
    ensures Encode(Obj(normal)) == "{" + Joined(texts, |texts|) + "}"
  {
    MembersSplit(normal, texts, |normal|);
    assert Joined(texts, |texts|) + "" == Joined(texts, |texts|);
  }

  lemma NormalOfObject(members: seq<Member>)
    ensures Normalize(Obj(members)) == Obj(NormalizeMembers(SortMembers(members)))
  {
    SortCommutes(members);
  }

  lemma TextsOfNormal(sorted: seq<Member>)
    ensures var normal := NormalizeMembers(sorted);
      forall i :: 0 <= i < |normal| ==> TextsOf(sorted)[i] == EncodeString(normal[i].key) + ":" + Encode(normal[i].value)
  {}

  lemma CanonicalOfObject(members: seq<Member>)
    ensures var texts := TextsOf(SortMembers(members)); Canonical(Obj(members)) == "{" + Joined(texts, |texts|) + "}"
  {
    var sorted := SortMembers(members);
    NormalOfObject(members);
    TextsOfNormal(sorted);
    EncodeObject(NormalizeMembers(sorted), TextsOf(sorted));
  }

  lemma RegroupTwo(a: string, b: string, c: string)
    ensures a + b + c == a + (b + c)
  {}

  lemma RegroupAppend(a: string, b: string, c: string, d: string)
    ensures a + b + c + d == a + (b + c + d)
  {}

  lemma RegroupOne(a: string, b: string, c: string, d: string)
    ensures a + b + c + ":" + d == a + (b + (c + ":" + d))
  {}
}
