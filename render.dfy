/** The pure renderers of src/core/SmartCSS.js: property-name hyphenation,
    one declaration, the recursive expander for nested pseudo and media
    groups, the single-rule serialiser used by the aggregate output, and the
    concatenation of many rendered rules. */
module Render {
  import opened Strings
  import opened Styles

  // ---------------------------------------------------------------------
  // Property names

  predicate IsUpper(c: char) {
    'A' <= c <= 'Z'
  }

  function ToLowerChar(c: char): char
  {
    if IsUpper(c) then (c as int + 32) as char else c
  }

  function CountUpper(s: string): nat
  {
    if s == [] then 0 else (if IsUpper(s[0]) then 1 else 0) + CountUpper(s[1..])
  }

  /** `s.replace(/([A-Z])/g, '-$1')`: a `-` in front of every upper-case letter. */
  function HyphenateUpper(s: string): string
  {
    if s == [] then ""
    else (if IsUpper(s[0]) then ['-', s[0]] else [s[0]]) + HyphenateUpper(s[1..])
  }

  /** The result is longer by the number of upper-case letters, and every
      upper-case letter in it follows a `-`. */
  lemma {:induction false} HyphenateUpperShape(s: string)
    ensures |HyphenateUpper(s)| == |s| + CountUpper(s)
    ensures var r := HyphenateUpper(s);
      forall i :: 0 <= i < |r| && IsUpper(r[i]) ==> 0 < i && r[i - 1] == '-'
  {
    if s != [] {
      HyphenateUpperShape(s[1..]);
      var head := if IsUpper(s[0]) then ['-', s[0]] else [s[0]];
      var tail := HyphenateUpper(s[1..]);
      var r := head + tail;
      assert r == HyphenateUpper(s);
      forall i | 0 <= i < |r| && IsUpper(r[i]) ensures 0 < i && r[i - 1] == '-' {
        if i >= |head| {
          assert r[i] == tail[i - |head|];
          assert r[i - 1] == tail[i - |head| - 1];
        }
      }
    }
  }

  /** `s.toLowerCase()`, on ASCII letters. */
  function ToLowerCase(s: string): string
  {
    if s == [] then "" else [ToLowerChar(s[0])] + ToLowerCase(s[1..])
  }

  /** Lower-casing works character by character. */
  lemma {:induction false} ToLowerCaseAt(s: string)
    ensures |ToLowerCase(s)| == |s|
    ensures forall i :: 0 <= i < |s| ==> ToLowerCase(s)[i] == ToLowerChar(s[i])
  {
    if s != [] {
      ToLowerCaseAt(s[1..]);
      assert forall i :: 1 <= i < |s| ==> ToLowerCase(s)[i] == ToLowerCase(s[1..])[i - 1];
    }
  }

  lemma ToLowerCaseAppend(a: string, b: string)
    ensures ToLowerCase(a + b) == ToLowerCase(a) + ToLowerCase(b)
  {
    ToLowerCaseAt(a + b);
    ToLowerCaseAt(a);
    ToLowerCaseAt(b);
    forall i | 0 <= i < |a + b|
      ensures ToLowerCase(a + b)[i] == (ToLowerCase(a) + ToLowerCase(b))[i]
    {
      if i < |a| {
        assert (a + b)[i] == a[i];
      } else {
        assert (a + b)[i] == b[i - |a|];
      }
    }
  }

  /** `s.replace(/^ms-/, '-ms-')`: replacing a leading `ms-` by `-ms-` is
      putting one `-` in front; nothing else is touched. */
  function ReplaceMsPrefix(s: string): string
  {
    if StartsWith(s, "ms-") then "-ms-" + s[3..] else s
  }

  lemma ReplaceMsPrefixAddsDash(s: string)
    ensures StartsWith(s, "ms-") ==> ReplaceMsPrefix(s) == "-" + s
    ensures !StartsWith(s, "ms-") ==> ReplaceMsPrefix(s) == s
  {
  }

  /** `hyphenateProp`: camelCase to the hyphenated CSS form, with a leading
      `ms-` vendor token turned into `-ms-`. */
  function HyphenateProp(s: string): string
  {
    ReplaceMsPrefix(ToLowerCase(HyphenateUpper(s)))
  }

  /** A hyphenated property name has no upper-case letter. */
  lemma HyphenatePropHasNoUpper(s: string)
    ensures forall i :: 0 <= i < |HyphenateProp(s)| ==> !IsUpper(HyphenateProp(s)[i])
  {
    var t := ToLowerCase(HyphenateUpper(s));
    ToLowerCaseAt(HyphenateUpper(s));
    ReplaceMsPrefixAddsDash(t);
    assert forall i :: 0 <= i < |t| ==> !IsUpper(t[i]);
    if StartsWith(t, "ms-") {
      assert forall i :: 1 <= i < |"-" + t| ==> ("-" + t)[i] == t[i - 1];
    }
  }

  /** What one character becomes in the one-pass reading of hyphenation. */
  function HyphenateChar(c: char): string {
    if IsUpper(c) then ['-', ToLowerChar(c)] else [c]
  }

  lemma {:induction false} LowerOfHyphenated(s: string)
    ensures ToLowerCase(HyphenateUpper(s)) == ConcatMap(s, HyphenateChar)
  {
    if s != [] {
      var head := if IsUpper(s[0]) then ['-', s[0]] else [s[0]];
      ToLowerCaseAppend(head, HyphenateUpper(s[1..]));
      LowerOfHyphenated(s[1..]);
      assert ToLowerCase(head) == HyphenateChar(s[0]);
    }
  }

  /** Hyphenation is, character by character, "`-` and the lower-case letter
      for an upper-case letter, the character itself otherwise", followed by
      turning a leading `ms-` into `-ms-`. */
  lemma HyphenatePropIsPerCharacter(s: string)
    ensures var t := ConcatMap(s, HyphenateChar);
      HyphenateProp(s) == if StartsWith(t, "ms-") then "-" + t else t
  {
    LowerOfHyphenated(s);
    ReplaceMsPrefixAddsDash(ConcatMap(s, HyphenateChar));
  }

  lemma {:induction false} HyphenateCharsOfLower(s: string)
    requires forall i :: 0 <= i < |s| ==> !IsUpper(s[i])
    ensures ConcatMap(s, HyphenateChar) == s
  {
    if s != [] {
      HyphenateCharsOfLower(s[1..]);
      assert s == [s[0]] + s[1..];
    }
  }

  predicate NoUpper(s: string) {
    forall i :: 0 <= i < |s| ==> !IsUpper(s[i])
  }

  /** One upper-case letter between lower-case runs becomes `-` and its
      lower-case form; only the `ms-` rule can then touch the front. */
  lemma HyphenateOneCapital(a: string, c: char, b: string)
    requires NoUpper(a) && NoUpper(b) && IsUpper(c)
    ensures HyphenateProp(a + [c] + b) == ReplaceMsPrefix(a + ['-', ToLowerChar(c)] + b)
  {
    LowerOfHyphenated(a + [c] + b);
    HyphenateCharsOneCapital(a, c, b);
  }

  lemma HyphenateCharsOneCapital(a: string, c: char, b: string)
    requires NoUpper(a) && NoUpper(b) && IsUpper(c)
    ensures ConcatMap(a + [c] + b, HyphenateChar) == a + ['-', ToLowerChar(c)] + b
  {
    ConcatMapAppend(a + [c], b, HyphenateChar);
    ConcatMapSnoc(a, c, HyphenateChar);
    HyphenateCharsOfLower(a);
    HyphenateCharsOfLower(b);
  }

  /** The `msTransition` case: a leading `ms` vendor token gets its own
      leading `-`, giving `-ms-transition`. */
  lemma HyphenateMsVendor(c: char, b: string)
    requires NoUpper(b) && IsUpper(c)
    ensures HyphenateProp("ms" + [c] + b) == "-ms-" + [ToLowerChar(c)] + b
  {
    var l := ToLowerChar(c);
    assert NoUpper("ms");
    HyphenateOneCapital("ms", c, b);
    var t := "ms" + ['-', l] + b;
    assert t == "ms-" + ([l] + b);
    assert t[..3] == "ms-" && t[3..] == [l] + b;
    assert "-ms-" + ([l] + b) == "-ms-" + [l] + b;
  }

  /** The `MozTransition` case: a leading capital already yields the
      leading `-` of a vendor prefix, so the `ms-` rule does not apply and
      the rest is hyphenated character by character. */
  lemma HyphenateLeadingCapital(c: char, s: string)
    requires IsUpper(c)
    ensures HyphenateProp([c] + s) == ['-', ToLowerChar(c)] + ConcatMap(s, HyphenateChar)
  {
    HyphenatePropIsPerCharacter([c] + s);
    assert ([c] + s)[1..] == s;
    var t := ['-', ToLowerChar(c)] + ConcatMap(s, HyphenateChar);
    assert !StartsWith(t, "ms-") by {
      if |t| >= 3 {
        assert t[..3][0] == '-';
      }
    }
  }

  // ---------------------------------------------------------------------
  // One declaration

  /** `escapeValueForProp`: values are deliberately passed through. */
  function EscapeValueForProp(value: string, prop: string): string
  {
    value
  }

  /** `ruleToString`: one `name:value;` declaration. */
  function RuleToString(propName: string, value: Val): string
  {
    var cssPropName := HyphenateProp(propName);
    cssPropName + ":" + EscapeValueForProp(ValueText(value), cssPropName) + ";"
  }

  /** A declaration is the hyphenated name, `:`, the value text left
      unescaped, and `;`; so it is never empty. */
  lemma RuleToStringIsUnescaped(propName: string, value: Val)
    ensures RuleToString(propName, value) == HyphenateProp(propName) + ":" + ValueText(value) + ";"
    ensures |RuleToString(propName, value)| >= 2
  {
  }

  /** Hyphenation never introduces a `:`: every character it adds is `-`
      or a lower-case letter. */
  lemma {:induction false} HyphenateCharsNoColon(s: string)
    requires ':' !in s
    ensures ':' !in ConcatMap(s, HyphenateChar)
  {
    if s != [] {
      assert s[0] in s;
      assert forall c :: c in s[1..] ==> c in s;
      HyphenateCharsNoColon(s[1..]);
    }
  }

  /** A declaration splits at its first `:` into the hyphenated property
      name and the rest, and ends in `;`; when the value text has no `:`
      either, it splits into exactly the name and the value followed by `;`. */
  lemma RuleToStringSplits(propName: string, value: Val)
    requires ':' !in propName
    ensures var r := RuleToString(propName, value);
      && Split(r, ':')[0] == HyphenateProp(propName)
      && r[|r| - 1] == ';'
      && (':' !in ValueText(value) ==> Split(r, ':') == [HyphenateProp(propName), ValueText(value) + ";"])
  {
    var name, rest := HyphenateProp(propName), ValueText(value) + ";";
    HyphenatePropIsPerCharacter(propName);
    HyphenateCharsNoColon(propName);
    assert ':' !in name;
    assert RuleToString(propName, value) == name + [':'] + rest;
    SplitAfterPart(name, ':', rest);
    if ':' !in ValueText(value) {
      assert ':' !in rest;
      SplitWithoutSeparator(rest, ':');
    }
  }

  // ---------------------------------------------------------------------
  // Keys of a style object

  /** `key[0] === ':'` */
  predicate IsPseudoKey(key: string) {
    |key| > 0 && key[0] == ':'
  }

  /** `key.substring(0, 6) === '@media'` */
  predicate IsMediaKey(key: string) {
    StartsWith(key, "@media")
  }

  /** A key that is an ordinary declaration. */
  predicate IsDeclKey(key: string) {
    !IsPseudoKey(key) && !IsMediaKey(key)
  }

  lemma IndexKeysAreDecls(i: nat)
    ensures IsDeclKey(NatToString(i))
  {
    var k := NatToString(i);
    assert IsDigit(k[0]);
    if |k| >= 6 {
      assert k[..6][0] == k[0];
    }
  }

  // ---------------------------------------------------------------------
  // Nested expansion: rulesToString and _rulesToStringHeadless

  /** What the loop of `_rulesToStringHeadless` appends for one entry. */
  function DeclText(e: (string, Val)): string {
    if IsDeclKey(e.0) then RuleToString(e.0, e.1) else ""
  }

  /** `_rulesToStringHeadless`: the declarations of `v`, skipping nested
      pseudo and media keys. */
  function Headless(v: Val): string
  {
    ConcatMap(Entries(v), DeclText)
  }

  /** The three strings `rulesToString` accumulates. */
  datatype Parts = Parts(markup: string, pseudos: string, mediaQueries: string)

  /** The loop of `rulesToString` after visiting `es`. Recursive calls go
      into `@media` values only, which lie below `parent` (the ghost measure). */
  function Scan(cls: string, es: seq<(string, Val)>, ghost parent: Val, valid: string -> bool): Parts
    requires forall i :: 0 <= i < |es| && IsMediaKey(es[i].0) ==> es[i].1 < parent
    decreases parent, |es|
  {
    if es == [] then Parts("", "", "")
    else
      var p := Scan(cls, es[..|es| - 1], parent, valid);
      var (key, x) := es[|es| - 1];
      if IsPseudoKey(key) then
        p.(pseudos := p.pseudos + PseudoBlock(cls, key, x))
      else if IsMediaKey(key) then
        if !valid(key) then p
        else p.(mediaQueries := p.mediaQueries + MediaBlock(cls, key, x, valid))
      else
        p.(markup := p.markup + RuleToString(key, x))
  }

  function MediaBlock(cls: string, key: string, x: Val, valid: string -> bool): string
    decreases x, |Entries(x)| + 2
  {
    key + "{" + RulesToString(cls, x, valid) + "}"
  }

  function PseudoBlock(cls: string, key: string, x: Val): string {
    "." + cls + key + "{" + Headless(x) + "}"
  }

  /** `rulesToString(className, styleObj)`, with the media-query validator as
      the parameter `valid`. */
  function RulesToString(cls: string, v: Val, valid: string -> bool): string
    decreases v, |Entries(v)| + 1
  {
    EntriesBelow(v);
    var p := Scan(cls, Entries(v), v, valid);
    BaseBlock(cls, p.markup) + p.pseudos + p.mediaQueries
  }

  /** `if(markup !== '') markup = '.' + className + '{' + markup + '}'` */
  function BaseBlock(cls: string, markup: string): string {
    if markup != "" then "." + cls + "{" + markup + "}" else ""
  }

  lemma EntriesBelow(v: Val)
    ensures forall i :: 0 <= i < |Entries(v)| && IsMediaKey(Entries(v)[i].0) ==> Entries(v)[i].1 < v
  {
    var es := Entries(v);
    forall i | 0 <= i < |es| && IsMediaKey(es[i].0) ensures es[i].1 < v {
      if v.Str? {
        IndexKeysAreDecls(i);
      } else {
        assert es[i] in v.entries;
      }
    }
  }

  // The layout of the output, as a declarative reference: each kind of key
  // contributes its own text, concatenated in key order.

  function PseudoText(cls: string, e: (string, Val)): string {
    if IsPseudoKey(e.0) then PseudoBlock(cls, e.0, e.1) else ""
  }

  function MediaText(cls: string, e: (string, Val), valid: string -> bool): string {
    if IsMediaKey(e.0) && valid(e.0) then MediaBlock(cls, e.0, e.1, valid) else ""
  }

  function Layout(cls: string, es: seq<(string, Val)>, valid: string -> bool): Parts
  {
    Parts(
      ConcatMap(es, DeclText),
      ConcatMap(es, e => PseudoText(cls, e)),
      ConcatMap(es, e => MediaText(cls, e, valid)))
  }

  lemma {:induction false} ScanIsLayout(cls: string, es: seq<(string, Val)>, parent: Val, valid: string -> bool)
    requires forall i :: 0 <= i < |es| && IsMediaKey(es[i].0) ==> es[i].1 < parent
    ensures Scan(cls, es, parent, valid) == Layout(cls, es, valid)
    decreases |es|
  {
    if es != [] {
      ScanIsLayout(cls, es[..|es| - 1], parent, valid);
      ScanStep(cls, es, parent, valid);
      LayoutStep(cls, es, valid);
    }
  }

  lemma LayoutStep(cls: string, es: seq<(string, Val)>, valid: string -> bool)
    requires es != []
    ensures var l, e := Layout(cls, es[..|es| - 1], valid), es[|es| - 1];
      Layout(cls, es, valid) == Parts(
        l.markup + DeclText(e), l.pseudos + PseudoText(cls, e), l.mediaQueries + MediaText(cls, e, valid))
  {
    assert es[..|es| - 1] + [es[|es| - 1]] == es;
    LayoutSnoc(cls, es[..|es| - 1], es[|es| - 1], valid);
  }

  lemma LayoutSnoc(cls: string, es: seq<(string, Val)>, e: (string, Val), valid: string -> bool)
    ensures var l := Layout(cls, es, valid);
      Layout(cls, es + [e], valid) == Parts(
        l.markup + DeclText(e), l.pseudos + PseudoText(cls, e), l.mediaQueries + MediaText(cls, e, valid))
  {
    ConcatMapSnoc(es, e, DeclText);
    ConcatMapSnoc(es, e, e => PseudoText(cls, e));
    ConcatMapSnoc(es, e, e => MediaText(cls, e, valid));
  }

  /** One iteration of the loop adds each kind's text for the new entry. */
  lemma ScanStep(cls: string, es: seq<(string, Val)>, parent: Val, valid: string -> bool)
    requires es != []
    requires forall i :: 0 <= i < |es| && IsMediaKey(es[i].0) ==> es[i].1 < parent
    ensures StepAddsTexts(cls, es, parent, valid)
  {
    var last := es[|es| - 1];
    if IsPseudoKey(last.0) {
      ScanPseudoStep(cls, es, parent, valid);
    } else if IsMediaKey(last.0) {
      ScanMediaStep(cls, es, parent, valid);
    } else {
      ScanDeclStep(cls, es, parent, valid);
    }
  }

  ghost predicate StepAddsTexts(cls: string, es: seq<(string, Val)>, parent: Val, valid: string -> bool)
    requires es != []
    requires forall i :: 0 <= i < |es| && IsMediaKey(es[i].0) ==> es[i].1 < parent
  {
    var p, last := Scan(cls, es[..|es| - 1], parent, valid), es[|es| - 1];
    Scan(cls, es, parent, valid) == Parts(
      p.markup + DeclText(last),
      p.pseudos + PseudoText(cls, last),
      p.mediaQueries + MediaText(cls, last, valid))
  }

  lemma ScanPseudoStep(cls: string, es: seq<(string, Val)>, parent: Val, valid: string -> bool)
    requires es != [] && IsPseudoKey(es[|es| - 1].0)
    requires forall i :: 0 <= i < |es| && IsMediaKey(es[i].0) ==> es[i].1 < parent
    ensures StepAddsTexts(cls, es, parent, valid)
  {
    var p, last := Scan(cls, es[..|es| - 1], parent, valid), es[|es| - 1];
    OnlyOwnKind(cls, last, valid);
    assert p.markup + "" == p.markup;
    assert p.mediaQueries + "" == p.mediaQueries;
  }

  lemma ScanMediaStep(cls: string, es: seq<(string, Val)>, parent: Val, valid: string -> bool)
    requires es != [] && IsMediaKey(es[|es| - 1].0)
    requires forall i :: 0 <= i < |es| && IsMediaKey(es[i].0) ==> es[i].1 < parent
    ensures StepAddsTexts(cls, es, parent, valid)
  {
    var p, last := Scan(cls, es[..|es| - 1], parent, valid), es[|es| - 1];
    OnlyOwnKind(cls, last, valid);
    assert p.markup + "" == p.markup;
    assert p.pseudos + "" == p.pseudos;
    assert p.mediaQueries + "" == p.mediaQueries;
  }

  lemma ScanDeclStep(cls: string, es: seq<(string, Val)>, parent: Val, valid: string -> bool)
    requires es != [] && IsDeclKey(es[|es| - 1].0)
    requires forall i :: 0 <= i < |es| && IsMediaKey(es[i].0) ==> es[i].1 < parent
    ensures StepAddsTexts(cls, es, parent, valid)
  {
    var p, last := Scan(cls, es[..|es| - 1], parent, valid), es[|es| - 1];
    OnlyOwnKind(cls, last, valid);
    assert p.pseudos + "" == p.pseudos;
    assert p.mediaQueries + "" == p.mediaQueries;
  }

  /** Whatever the order of the keys, `rulesToString` emits the base block
      first, then every pseudo block, then every accepted media block, each
      group in the order of its keys. */
  lemma RulesToStringLayout(cls: string, v: Val, valid: string -> bool)
    ensures var l := Layout(cls, Entries(v), valid);
      RulesToString(cls, v, valid) == BaseBlock(cls, l.markup) + l.pseudos + l.mediaQueries
  {
    EntriesBelow(v);
    ScanIsLayout(cls, Entries(v), v, valid);
  }

  /** The base block is there exactly when some key is a plain declaration. */
  lemma DeclarationsPresent(cls: string, es: seq<(string, Val)>, valid: string -> bool)
    ensures Layout(cls, es, valid).markup != "" <==> exists i :: 0 <= i < |es| && IsDeclKey(es[i].0)
  {
    ConcatMapNonEmpty(es, DeclText);
    forall i | 0 <= i < |es| ensures DeclText(es[i]) != "" <==> IsDeclKey(es[i].0) {
      RuleToStringIsUnescaped(es[i].0, es[i].1);
    }
  }

  lemma ConcatMapPair<T>(x: T, y: T, f: T -> string)
    ensures ConcatMap([x, y], f) == f(x) + f(y)
  {
    assert [x, y][1..] == [y];
    assert ConcatMap([y], f) == f(y) by { assert [y][1..] == []; }
  }

  /** Two neighbouring entries of different kinds can be swapped without
      changing the output: only the order among keys of one kind matters. */
  lemma SwapNeighbours(cls: string, a: seq<(string, Val)>, x: (string, Val), y: (string, Val),
                       b: seq<(string, Val)>, valid: string -> bool)
    requires IsPseudoKey(x.0) != IsPseudoKey(y.0) || IsMediaKey(x.0) != IsMediaKey(y.0)
    ensures RulesToString(cls, Group(a + [x, y] + b), valid) == RulesToString(cls, Group(a + [y, x] + b), valid)
  {
    RulesToStringLayout(cls, Group(a + [x, y] + b), valid);
    RulesToStringLayout(cls, Group(a + [y, x] + b), valid);
    LayoutSwap(cls, a, x, y, b, valid);
  }

  lemma LayoutSwap(cls: string, a: seq<(string, Val)>, x: (string, Val), y: (string, Val),
                   b: seq<(string, Val)>, valid: string -> bool)
    requires IsPseudoKey(x.0) != IsPseudoKey(y.0) || IsMediaKey(x.0) != IsMediaKey(y.0)
    ensures Layout(cls, a + [x, y] + b, valid) == Layout(cls, a + [y, x] + b, valid)
  {
    OnlyOwnKind(cls, x, valid);
    OnlyOwnKind(cls, y, valid);
    var pseudo, media := e => PseudoText(cls, e), e => MediaText(cls, e, valid);
    assert DeclText(x) == "" || DeclText(y) == "";
    assert pseudo(x) == "" || pseudo(y) == "";
    assert media(x) == "" || media(y) == "";
    SwapInConcat(a, x, y, b, DeclText);
    SwapInConcat(a, x, y, b, pseudo);
    SwapInConcat(a, x, y, b, media);
  }

  /** Each entry has text of its own kind only. */
  lemma OnlyOwnKind(cls: string, e: (string, Val), valid: string -> bool)
    ensures !IsDeclKey(e.0) ==> DeclText(e) == ""
    ensures !IsPseudoKey(e.0) ==> PseudoText(cls, e) == ""
    ensures !IsMediaKey(e.0) ==> MediaText(cls, e, valid) == ""
  {
  }

  lemma SwapInConcat<T>(a: seq<T>, x: T, y: T, b: seq<T>, f: T -> string)
    requires f(x) == "" || f(y) == ""
    ensures ConcatMap(a + [x, y] + b, f) == ConcatMap(a + [y, x] + b, f)
  {
    ConcatMapAppend(a + [x, y], b, f);
    ConcatMapAppend(a + [y, x], b, f);
    ConcatMapAppend(a, [x, y], f);
    ConcatMapAppend(a, [y, x], f);
    ConcatMapPair(x, y, f);
    ConcatMapPair(y, x, f);
  }

  /** A media key the validator rejects contributes nothing: removing it
      leaves the output unchanged. */
  lemma DropsRejectedMedia(cls: string, a: seq<(string, Val)>, key: string, x: Val,
                           b: seq<(string, Val)>, valid: string -> bool)
    requires IsMediaKey(key) && !valid(key)
    ensures RulesToString(cls, Group(a + [(key, x)] + b), valid) == RulesToString(cls, Group(a + b), valid)
  {
    RulesToStringLayout(cls, Group(a + [(key, x)] + b), valid);
    RulesToStringLayout(cls, Group(a + b), valid);
    LayoutDrop(cls, a, (key, x), b, valid);
  }

  lemma LayoutDrop(cls: string, a: seq<(string, Val)>, e: (string, Val), b: seq<(string, Val)>,
                   valid: string -> bool)
    requires IsMediaKey(e.0) && !valid(e.0)
    ensures Layout(cls, a + [e] + b, valid) == Layout(cls, a + b, valid)
  {
    OnlyOwnKind(cls, e, valid);
    DropInConcat(a, e, b, DeclText);
    DropInConcat(a, e, b, e => PseudoText(cls, e));
    DropInConcat(a, e, b, e => MediaText(cls, e, valid));
  }

  lemma DropInConcat<T>(a: seq<T>, x: T, b: seq<T>, f: T -> string)
    requires f(x) == ""
    ensures ConcatMap(a + [x] + b, f) == ConcatMap(a + b, f)
  {
    ConcatMapAppend(a + [x], b, f);
    ConcatMapSnoc(a, x, f);
    ConcatMapAppend(a, b, f);
  }

  // ---------------------------------------------------------------------
  // Single rule and aggregate

  /** What the loop of `renderStyleClass` appends for one entry: every key
      becomes a declaration, nested groups included (they print as
      "[object Object]"). */
  function EntryText(e: (string, Val)): string {
    RuleToString(e.0, e.1)
  }

  /** `if(media)`: an absent or empty media condition is falsy. */
  predicate HasMedia(media: Option<string>) {
    media.Some? && media.value != ""
  }

  /** `renderStyleClass`: the selector header, the body in braces, and the
      optional media wrapper. */
  function RenderStyleClass(sc: StyleClass): string
  {
    var styleHeader := "." + sc.className + sc.pseudo;
    var styleFull := styleHeader + "{" + ConcatMap(sc.styleDef, EntryText) + "}";
    if HasMedia(sc.media) then "@media (" + sc.media.value + "){" + styleFull + "}" else styleFull
  }

  lemma RenderWithoutMedia(sc: StyleClass)
    requires !HasMedia(sc.media)
    ensures RenderStyleClass(sc) == "." + sc.className + sc.pseudo + "{" + ConcatMap(sc.styleDef, EntryText) + "}"
  {
  }

  /** The output opens with `@media` exactly when the rule has a media
      condition; otherwise it opens with the class selector. */
  lemma RenderStyleClassMediaPrefix(sc: StyleClass)
    ensures StartsWith(RenderStyleClass(sc), "@media") <==> HasMedia(sc.media)
  {
    var css := RenderStyleClass(sc);
    if HasMedia(sc.media) {
      assert css[..6] == "@media";
    } else {
      assert css[0] == '.';
    }
  }

  lemma {:induction false} BodyOfDecls(cls: string, es: seq<(string, Val)>, valid: string -> bool)
    requires forall i :: 0 <= i < |es| ==> IsDeclKey(es[i].0)
    ensures ConcatMap(es, EntryText) == Layout(cls, es, valid).markup
    ensures Layout(cls, es, valid).pseudos == ""
    ensures Layout(cls, es, valid).mediaQueries == ""
  {
    if es != [] {
      BodyOfDecls(cls, es[1..], valid);
    }
  }

  /** The nested expander on a non-empty object of plain declarations is
      one base block and nothing else. */
  lemma RulesToStringOfDecls(cls: string, es: seq<(string, Val)>, valid: string -> bool)
    requires |es| > 0
    requires forall i :: 0 <= i < |es| ==> IsDeclKey(es[i].0)
    ensures RulesToString(cls, Group(es), valid) == "." + cls + "{" + ConcatMap(es, EntryText) + "}"
  {
    var l := Layout(cls, es, valid);
    BodyOfDecls(cls, es, valid);
    DeclarationsPresent(cls, es, valid);
    assert IsDeclKey(es[0].0);
    RulesToStringLayout(cls, Group(es), valid);
  }

  /** For a plain rule (no pseudo suffix, no media, only declarations), the
      aggregate serialiser and the nested expander give the same text. */
  lemma RenderAgreesWithRulesToString(sc: StyleClass, valid: string -> bool)
    requires sc.pseudo == "" && !HasMedia(sc.media) && |sc.styleDef| > 0
    requires forall i :: 0 <= i < |sc.styleDef| ==> IsDeclKey(sc.styleDef[i].0)
    ensures RenderStyleClass(sc) == RulesToString(sc.className, Group(sc.styleDef), valid)
  {
    assert "." + sc.className + sc.pseudo == "." + sc.className;
    RulesToStringOfDecls(sc.className, sc.styleDef, valid);
    RenderWithoutMedia(sc);
  }

  /** The aggregate path does not expand a nested group: a `:hover` (or any
      other lower-case) key holding an object becomes one declaration whose
      value is "[object Object]". */
  lemma NestedGroupNotExpanded(key: string, g: seq<(string, Val)>)
    requires NoUpper(key) && !StartsWith(key, "ms-")
    ensures EntryText((key, Group(g))) == key + ":[object Object];"
  {
    HyphenatePropIsPerCharacter(key);
    HyphenateCharsOfLower(key);
  }

  /** The concatenation of the rendered rules, in order, with no separator. */
  function RenderAll(rules: seq<StyleClass>): string
  {
    ConcatMap(rules, RenderStyleClass)
  }
}
