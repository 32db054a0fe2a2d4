/** Reading the members of a parsed object. */
module JsonFields {
  import opened Basics
  import opened Text
  import opened Decimals
  import opened Json

  function Lookup(members: seq<Member>, key: Bytes): Option<Json> {
    if members == [] then None
    else if members[0].key == key then Some(members[0].value)
    else Lookup(members[1..], key)
  }

  /** As many members as keys, and every key among them. */
  predicate HasExactly(members: seq<Member>, keys: seq<Bytes>) {
    |members| == |keys| && forall i :: 0 <= i < |keys| ==> Lookup(members, keys[i]).Some?
  }

  lemma {:induction false} LookupFinds(members: seq<Member>, i: nat)
    requires DistinctKeys(members) && i < |members|
    ensures Lookup(members, members[i].key) == Some(members[i].value)
    decreases |members|
  {
    if i > 0 {
      assert members[0].key != members[i].key;
      LookupFinds(members[1..], i - 1);
    }
  }

  lemma {:induction false} MembersWellFormed(members: seq<Member>)
    requires forall i :: 0 <= i < |members| ==> ValidUtf8(members[i].key) && WellFormed(members[i].value)
    ensures AllMembersWellFormed(members)
    decreases |members|
  {
    if members != [] {
      MembersWellFormed(members[1..]);
    }
  }

  /** Text in which nothing needs escaping. */
  predicate Plain(s: Bytes) {
    forall i :: 0 <= i < |s| ==> 0x20 <= s[i] < 0x80 && s[i] != QUOTE && s[i] != BACKSLASH
  }

  lemma {:induction false} PlainIsUnescaped(s: Bytes)
    requires Plain(s)
    ensures EscapeAll(s) == s && ValidUtf8(s)
    decreases |s|
  {
    if s != [] {
      PlainIsUnescaped(s[1..]);
      assert s == [s[0]] + s[1..];
    }
  }

  function MemberLength(m: Member): nat { |PrintString(m.key)| + 1 + |Print(m.value)| }

  /** The length of the members from `i` on, with the commas between them. */
  function LengthFrom(members: seq<Member>, i: nat): nat
    decreases |members| - i
  {
    if i >= |members| then 0
    else MemberLength(members[i]) + (if i + 1 == |members| then 0 else 1) + LengthFrom(members, i + 1)
  }

  lemma {:induction false} PrintedLength(members: seq<Member>, i: nat)
    requires i <= |members|
    ensures |PrintMembers(members[i..])| == LengthFrom(members, i)
    decreases |members| - i
  {
    if i < |members| {
      PrintedLength(members, i + 1);
      assert members[i..][1..] == members[i + 1..];
    }
  }

  lemma {:induction false} DecimalLength(n: nat, digits: nat, bound: nat)
    requires digits >= 1 && bound == PowerOfTen(digits) && n < bound
    ensures |Decimal(n)| <= digits
    decreases n
  {
    if n >= 10 {
      DecimalLength(n / 10, digits - 1, bound / 10);
    }
  }
}
