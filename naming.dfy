/** How `setClass` reads a selector and how it makes up class names.

    A selector `id:pseudo:chain` is cut at its first `:` into the class id
    and the pseudo suffix (which keeps the `:` and everything after it).
    A generated class name is a base (`c`, or the name of the base rule
    already registered for the class id), optionally `-` and the class id,
    then `-` and a fresh value of the shared counter. */
module Naming {
  import opened Strings

  /** `selector.split(':')[0]` and the same parts re-joined with `:` after
      blanking the first one. */
  function SplitSelector(selector: string): (string, string)
  {
    var parts := Split(selector, ':');
    (parts[0], Join([""] + parts[1..], ":"))
  }

  lemma JoinAfterEmpty(xs: seq<string>, sep: string)
    requires |xs| >= 1
    ensures Join([""] + xs, sep) == sep + Join(xs, sep)
  {
    assert ([""] + xs)[1..] == xs;
  }

  /** The class id and the pseudo suffix make up the selector; the class id
      has no `:`; the suffix is empty or starts with `:`. */
  lemma SplitSelectorParts(selector: string)
    ensures var (classId, pseudo) := SplitSelector(selector);
      classId + pseudo == selector && ':' !in classId && (pseudo == "" || pseudo[0] == ':')
  {
    var parts := Split(selector, ':');
    if |parts| > 1 {
      JoinAfterEmpty(parts[1..], ":");
      assert parts == [parts[0]] + parts[1..];
    }
  }

  /** Conversely, a colon-free class id followed by an empty or
      `:`-led suffix is split back into exactly those two parts, so the
      split is the only decomposition with the properties above. */
  lemma SplitSelectorOf(classId: string, pseudo: string)
    requires ':' !in classId
    requires pseudo == "" || pseudo[0] == ':'
    ensures SplitSelector(classId + pseudo) == (classId, pseudo)
  {
    if pseudo == "" {
      assert classId + pseudo == classId;
      SplitWithoutSeparator(classId, ':');
    } else {
      var tail := pseudo[1..];
      assert classId + pseudo == classId + [':'] + tail;
      SplitAfterPart(classId, ':', tail);
      var parts := [classId] + Split(tail, ':');
      assert parts[1..] == Split(tail, ':');
      JoinAfterEmpty(Split(tail, ':'), ":");
      assert pseudo == [':'] + tail;
    }
  }

  /** `a:hover::before` has class id `a` and pseudo suffix `:hover::before`:
      colons after the first are kept verbatim. */
  lemma SplitSelectorKeepsLaterColons(selector: string)
    requires selector == "a:hover::before"
    ensures SplitSelector(selector) == ("a", ":hover::before")
  {
    SplitSelectorOf("a", ":hover::before");
    assert "a" + ":hover::before" == selector;
  }

  /** The name `setClass` builds when no class name is supplied. */
  function GeneratedName(base: string, prefixClassId: bool, classId: string, id: nat): string
  {
    base + (if prefixClassId then "-" + classId else "") + "-" + NatToString(id)
  }

  /** The order `setClass` builds the name in: the optional `-classId`
      appended to the base, then `-` and the counter value. */
  lemma GeneratedNameInSteps(base: string, prefixClassId: bool, classId: string, id: nat)
    ensures (if prefixClassId then base + "-" + classId else base) + "-" + NatToString(id)
         == GeneratedName(base, prefixClassId, classId, id)
  {
    if !prefixClassId {
      assert base + "" == base;
    }
  }

  /** A name issued for counter value `id` ends in `-` and the decimal
      text of `id`. */
  predicate IssuedFor(name: string, id: nat) {
    EndsWith(name, "-" + NatToString(id))
  }

  /** The generated name starts with the base and is issued for its
      counter value: the text after its last `-` is that value. */
  lemma GeneratedNameShape(base: string, prefixClassId: bool, classId: string, id: nat)
    ensures var name := GeneratedName(base, prefixClassId, classId, id);
      StartsWith(name, base) && IssuedFor(name, id) && AfterLastDash(name) == NatToString(id)
  {
    var mid := if prefixClassId then "-" + classId else "";
    var name := base + mid + "-" + NatToString(id);
    NatToStringHasNoDash(id);
    AfterLastDashOf(base + mid, NatToString(id));
    assert name[..|base|] == base;
    assert name[|name| - |"-" + NatToString(id)|..] == "-" + NatToString(id);
  }

  /** Names issued for different counter values differ, whatever their
      bases and class ids. */
  lemma IssuedNamesDiffer(name1: string, id1: nat, name2: string, id2: nat)
    requires IssuedFor(name1, id1) && IssuedFor(name2, id2)
    requires id1 != id2
    ensures name1 != name2
  {
    var d1, d2 := NatToString(id1), NatToString(id2);
    NatToStringHasNoDash(id1);
    NatToStringHasNoDash(id2);
    var a1 := name1[..|name1| - |d1| - 1];
    var a2 := name2[..|name2| - |d2| - 1];
    assert name1 == a1 + "-" + d1;
    assert name2 == a2 + "-" + d2;
    AfterLastDashOf(a1, d1);
    AfterLastDashOf(a2, d2);
    NatToStringInjective(id1, id2);
  }

  /** A name issued for a counter value not yet handed out differs from
      every name issued before it. */
  lemma FreshNameDiffers(issued: map<nat, string>, id: nat, name: string)
    requires forall k | k in issued :: k < id && IssuedFor(issued[k], k)
    requires IssuedFor(name, id)
    ensures forall k | k in issued :: issued[k] != name
  {
    forall k | k in issued ensures issued[k] != name {
      IssuedNamesDiffer(issued[k], k, name, id);
    }
  }

  /** Every record of issued names keyed by counter value is injective. */
  lemma IssuedNamesDistinct(issued: map<nat, string>)
    requires forall k | k in issued :: IssuedFor(issued[k], k)
    ensures forall k1, k2 | k1 in issued && k2 in issued && k1 != k2 :: issued[k1] != issued[k2]
  {
    forall k1, k2 | k1 in issued && k2 in issued && k1 != k2 ensures issued[k1] != issued[k2] {
      IssuedNamesDiffer(issued[k1], k1, issued[k2], k2);
    }
  }
}
