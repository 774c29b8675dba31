/** The style registry of src/core/SmartCSS.js: the process-wide data shared
    by every instance (`SmartCSS.__data`: a style table, the list of
    registered instances and the class-name counter) and the instances
    themselves, each with its own rule table and class-name table. */
module Registry {
  import opened Strings
  import opened Styles
  import opened Render
  import opened Dict
  import opened Naming

  // ---------------------------------------------------------------------
  // Pure views of an instance's tables

  /** `getClass`: the name stored for the class id, or "" when there is
      none or it was left undefined. */
  function ClassNameOf(names: map<string, Option<string>>, classId: string): string
  {
    if classId in names && names[classId].Some? then names[classId].value else ""
  }

  /** The start of a generated name: the class name of the base rule
      registered under the bare class id, or `c`. */
  function BaseClassName(rules: seq<(string, StyleClass)>, classId: string): string
  {
    match Lookup(rules, classId)
    case Some(sc) => sc.className
    case None => "c"
  }

  /** The class id part of a rule table entry: its key without the rule's
      pseudo suffix. */
  ghost function KeyClassId(e: (string, StyleClass)): string
  {
    if |e.1.pseudo| <= |e.0| then e.0[..|e.0| - |e.1.pseudo|] else e.0
  }

  /** An entry is stored under a colon-free class id followed by its own
      rule's pseudo suffix, which is empty or starts with `:`. */
  ghost predicate StoredUnderOwnPseudo(e: (string, StyleClass))
  {
    && e.0 == KeyClassId(e) + e.1.pseudo
    && ':' !in KeyClassId(e)
    && (e.1.pseudo == "" || e.1.pseudo[0] == ':')
  }

  lemma StoredUnder(classId: string, pseudo: string, rule: StyleClass)
    requires ':' !in classId && (pseudo == "" || pseudo[0] == ':') && rule.pseudo == pseudo
    ensures KeyClassId((classId + pseudo, rule)) == classId
    ensures StoredUnderOwnPseudo((classId + pseudo, rule))
  {
    assert (classId + pseudo)[..|classId|] == classId;
  }

  /** Two well-formed entries under the same key have the same class id. */
  lemma SameKeySameClassId(e: (string, StyleClass), classId: string, pseudo: string)
    requires StoredUnderOwnPseudo(e)
    requires ':' !in classId && (pseudo == "" || pseudo[0] == ':') && e.0 == classId + pseudo
    ensures KeyClassId(e) == classId
  {
    SplitSelectorOf(KeyClassId(e), e.1.pseudo);
    SplitSelectorOf(classId, pseudo);
  }

  /** The invariant of an instance's two tables: rule keys are distinct,
      every rule sits under its class id followed by its own pseudo suffix,
      every class id with a rule has an entry in the class-name table, and
      every defined class-name entry is the class name of one of that class
      id's rules. */
  ghost predicate Consistent(rules: seq<(string, StyleClass)>, names: map<string, Option<string>>)
  {
    && KeysDistinct(rules)
    && (forall i :: 0 <= i < |rules| ==> StoredUnderOwnPseudo(rules[i]))
    && (forall i :: 0 <= i < |rules| ==> KeyClassId(rules[i]) in names)
    && (forall c :: c in names && names[c].Some? ==>
          exists i :: 0 <= i < |rules| && KeyClassId(rules[i]) == c && rules[i].1.className == names[c].value)
  }

  /** The rule table with entry `j` replaced by `e`, or `e` appended when
      `j` is just past the end. */
  function Placed(rules: seq<(string, StyleClass)>, j: nat, e: (string, StyleClass)): seq<(string, StyleClass)>
    requires j <= |rules|
  {
    if j < |rules| then rules[j := e] else rules + [e]
  }

  /** Placing an entry for `classId` where that class id's entry was (or at
      the end) and setting its class-name entry keeps the invariant. */
  lemma PlacedKeepsConsistent(rules: seq<(string, StyleClass)>, names: map<string, Option<string>>,
                              j: nat, e: (string, StyleClass), classId: string, v: Option<string>)
    requires Consistent(rules, names)
    requires j <= |rules| && KeysDistinct(Placed(rules, j, e))
    requires StoredUnderOwnPseudo(e) && KeyClassId(e) == classId
    requires j < |rules| ==> KeyClassId(rules[j]) == classId
    requires v.Some? ==> v.value == e.1.className
    ensures Consistent(Placed(rules, j, e), names[classId := v])
  {
    var rules', names' := Placed(rules, j, e), names[classId := v];
    assert rules'[j] == e;
    assert forall i :: 0 <= i < |rules'| && i != j ==> rules'[i] == rules[i];
    forall c | c in names' && names'[c].Some?
      ensures exists i :: 0 <= i < |rules'| && KeyClassId(rules'[i]) == c && rules'[i].1.className == names'[c].value
    {
      if c == classId {
        assert KeyClassId(rules'[j]) == c && rules'[j].1.className == names'[c].value;
      } else {
        var i :| 0 <= i < |rules| && KeyClassId(rules[i]) == c && rules[i].1.className == names[c].value;
        assert rules'[i] == rules[i];
      }
    }
  }

  /** The two table updates of `setClass` keep the invariant. */
  lemma RegisterKeepsConsistent(rules: seq<(string, StyleClass)>, names: map<string, Option<string>>,
                                classId: string, pseudo: string, rule: StyleClass, supplied: bool)
    requires Consistent(rules, names)
    requires ':' !in classId && (pseudo == "" || pseudo[0] == ':') && rule.pseudo == pseudo
    ensures Consistent(Put(rules, classId + pseudo, rule),
                       names[classId := if supplied then None else Some(rule.className)])
  {
    var key := classId + pseudo;
    LookupPut(rules, key, rule, key);
    StoredUnder(classId, pseudo, rule);
    var j: nat;
    if HasKey(rules, key) {
      j :| j < |rules| && rules[j].0 == key;
      PutInPlace(rules, key, rule, j);
      SameKeySameClassId(rules[j], classId, pseudo);
    } else {
      PutAppends(rules, key, rule);
      j := |rules|;
    }
    assert Put(rules, key, rule) == Placed(rules, j, (key, rule));
    PlacedKeepsConsistent(rules, names, j, (key, rule), classId, if supplied then None else Some(rule.className));
  }

  /** A pseudo variant registered after its base rule gets a generated name
      that starts with the base rule's class name and is strictly longer:
      the two rules do not share one physical class name. */
  lemma VariantNameExtendsBase(rules: seq<(string, StyleClass)>, classId: string, base: StyleClass,
                               prefixClassId: bool, id: nat)
    requires KeysDistinct(rules)
    ensures var name := GeneratedName(BaseClassName(Put(rules, classId, base), classId), prefixClassId, classId, id);
      StartsWith(name, base.className) && |name| > |base.className|
  {
    LookupPut(rules, classId, base, classId);
    GeneratedNameShape(base.className, prefixClassId, classId, id);
  }

  /** After the class-name entry of `classId` is set to `v`, `getClass`
      reads the new name there ("" when it was left undefined) and reads
      every other class id as before. */
  lemma ClassNameOfUpdate(names: map<string, Option<string>>, classId: string, v: Option<string>, c: string)
    ensures ClassNameOf(names[classId := v], c) ==
      if c == classId then (if v.Some? then v.value else "") else ClassNameOf(names, c)
  {
  }

  /** Under the invariant, a non-empty `getClass` result is the class name
      of some rule of that class id. */
  lemma ClassNameHasRule(rules: seq<(string, StyleClass)>, names: map<string, Option<string>>, c: string)
    requires Consistent(rules, names)
    requires ClassNameOf(names, c) != ""
    ensures exists i :: 0 <= i < |rules| && KeyClassId(rules[i]) == c && rules[i].1.className == ClassNameOf(names, c)
  {
  }

  /** The class names `getClasses` collects: one per entry whose flag is
      set, in entry order. */
  function SelectedClasses(names: map<string, Option<string>>, styleNames: seq<(string, bool)>): seq<string>
  {
    if styleNames == [] then []
    else
      var last := styleNames[|styleNames| - 1];
      SelectedClasses(names, styleNames[..|styleNames| - 1]) + (if last.1 then [ClassNameOf(names, last.0)] else [])
  }

  /** Selection distributes over concatenation of the entries, and one entry
      contributes its class name exactly when its flag is set: together these
      say the result is the class names of the flagged entries in order. */
  lemma {:induction false} SelectedClassesAppend(names: map<string, Option<string>>, a: seq<(string, bool)>, b: seq<(string, bool)>)
    ensures SelectedClasses(names, a + b) == SelectedClasses(names, a) + SelectedClasses(names, b)
    decreases |b|
  {
    if b == [] {
      assert a + b == a;
    } else {
      var b' := b[..|b| - 1];
      assert (a + b)[..|a + b| - 1] == a + b';
      SelectedClassesAppend(names, a, b');
    }
  }

  lemma SelectedClassesOne(names: map<string, Option<string>>, name: string, flag: bool)
    ensures SelectedClasses(names, [(name, flag)]) == if flag then [ClassNameOf(names, name)] else []
  {
    assert [(name, flag)][..0] == [];
  }

  /** The positions whose flag is set. */
  function FlagSet(styleNames: seq<(string, bool)>): set<nat>
  {
    set i: nat | i < |styleNames| && styleNames[i].1
  }

  lemma FlagSetStep(styleNames: seq<(string, bool)>)
    requires styleNames != []
    ensures var n := |styleNames| - 1;
      FlagSet(styleNames) == FlagSet(styleNames[..n]) + (if styleNames[n].1 then {n} else {})
  {
    var n := |styleNames| - 1;
    assert forall i :: 0 <= i < n ==> styleNames[..n][i] == styleNames[i];
  }

  /** As many class names as set flags. */
  lemma {:induction false} SelectedClassesCount(names: map<string, Option<string>>, styleNames: seq<(string, bool)>)
    ensures |SelectedClasses(names, styleNames)| == |FlagSet(styleNames)|
  {
    if styleNames != [] {
      var n := |styleNames| - 1;
      SelectedClassesCount(names, styleNames[..n]);
      FlagSetStep(styleNames);
      assert n !in FlagSet(styleNames[..n]);
    }
  }

  /** What `getClasses` returns: the array itself, or its elements joined by
      one space. */
  datatype Classes = ClassArray(names: seq<string>) | ClassString(text: string)

  /** When no selected class name holds a space, the joined string splits
      back into exactly the selected names (for a non-empty selection). */
  lemma ClassStringSplits(names: map<string, Option<string>>, styleNames: seq<(string, bool)>)
    requires |SelectedClasses(names, styleNames)| >= 1
    requires forall i :: 0 <= i < |SelectedClasses(names, styleNames)| ==> ' ' !in SelectedClasses(names, styleNames)[i]
    ensures Split(Join(SelectedClasses(names, styleNames), " "), ' ') == SelectedClasses(names, styleNames)
  {
    SplitOfJoin(SelectedClasses(names, styleNames), ' ');
  }

  // ---------------------------------------------------------------------
  // Shared data and instances

  /** `SmartCSS.__data`. The ghost `issued` records every generated class
      name under the counter value it was made with. */
  class SharedData {
    var styles: map<string, StyleClass>
    var contexts: seq<SmartCSS>
    var id: nat
    ghost var issued: map<nat, string>

    /** Every recorded name was made with a counter value already handed
        out, and ends in `-` and that value. */
    ghost predicate Valid()
      reads this
    {
      forall k | k in issued :: k < id && IssuedFor(issued[k], k)
    }

    constructor()
      ensures styles == map[] && contexts == [] && id == 0 && issued == map[]
      ensures Valid()
    {
      styles := map[];
      contexts := [];
      id := 0;
      issued := map[];
    }

    /** `SmartCSS.registerContext`. */
    method RegisterContext(context: SmartCSS)
      modifies this
      ensures contexts == old(contexts) + [context]
      ensures styles == old(styles) && id == old(id) && issued == old(issued)
      ensures Valid() <==> old(Valid())
    {
      contexts := contexts + [context];
    }

    /** `SmartCSS.__getNextId`: the counter before the increment. */
    method NextId() returns (n: nat)
      requires Valid()
      modifies this
      ensures n == old(id) && id == old(id) + 1
      ensures styles == old(styles) && contexts == old(contexts) && issued == old(issued)
      ensures Valid()
    {
      n := id;
      id := id + 1;
    }

    /** Records `name` as the class name generated with counter value `n`. */
    ghost method Record(n: nat, name: string)
      requires Valid() && n < id && IssuedFor(name, n)
      modifies this
      ensures issued == old(issued)[n := name]
      ensures styles == old(styles) && contexts == old(contexts) && id == old(id)
      ensures Valid()
    {
      issued := issued[n := name];
    }

    /** `SmartCSS.deleteStyles`: the tables are emptied, the counter is not
        reset, so names generated afterwards stay distinct from earlier ones. */
    method DeleteStyles()
      modifies this
      ensures styles == map[] && contexts == []
      ensures id == old(id) && issued == old(issued)
      ensures Valid() <==> old(Valid())
    {
      styles := map[];
      contexts := [];
    }

    /** `SmartCSS.getStylesAsString`. */
    method GetStylesAsString() returns (css: string)
      ensures css == StylesText(contexts)
    {
      var cs := contexts;
      css := "";
      var i := 0;
      while i < |cs|
        invariant 0 <= i <= |cs|
        invariant css == StylesText(cs[..i])
      {
        StylesTextStep(cs, i);
        var rules := cs[i].StyleClasses();
        css := AppendRendered(css, rules);
        i := i + 1;
      }
      assert cs[..i] == cs;
    }
  }

  /** The inner loop of `getStylesAsString`: each rule rendered and appended
      to the text so far. */
  method AppendRendered(str: string, rules: seq<StyleClass>) returns (css: string)
    ensures css == str + RenderAll(rules)
  {
    css := str;
    var j := 0;
    while j < |rules|
      invariant 0 <= j <= |rules|
      invariant css == str + RenderAll(rules[..j])
    {
      ConcatMapAccumulate(str, rules[..j], rules[j], RenderStyleClass);
      assert rules[..j + 1] == rules[..j] + [rules[j]];
      css := css + RenderStyleClass(rules[j]);
      j := j + 1;
    }
    assert rules[..j] == rules;
  }

  /** The text of all registered instances: each instance's rules rendered
      in table order, instance after instance, with no separator. */
  function StylesText(cs: seq<SmartCSS>): string
    reads cs
  {
    if cs == [] then ""
    else StylesText(cs[..|cs| - 1]) + RenderAll(cs[|cs| - 1].StyleClasses())
  }

  lemma StylesTextStep(cs: seq<SmartCSS>, i: nat)
    requires i < |cs|
    ensures StylesText(cs[..i + 1]) == StylesText(cs[..i]) + RenderAll(cs[i].StyleClasses())
  {
    assert cs[..i + 1][..i] == cs[..i];
  }

  /** Every rule of every instance, instance after instance. */
  function AllStyleClasses(cs: seq<SmartCSS>): seq<StyleClass>
    reads cs
  {
    if cs == [] then [] else AllStyleClasses(cs[..|cs| - 1]) + cs[|cs| - 1].StyleClasses()
  }

  /** The aggregate text is the rendering of the flat list of rules. */
  lemma {:induction false} StylesTextIsRenderAll(cs: seq<SmartCSS>)
    ensures StylesText(cs) == RenderAll(AllStyleClasses(cs))
  {
    if cs != [] {
      var init := cs[..|cs| - 1];
      StylesTextIsRenderAll(init);
      ConcatMapAppend(AllStyleClasses(init), cs[|cs| - 1].StyleClasses(), RenderStyleClass);
    }
  }

  /** One instance: `__styleClasses` (rules keyed by class id and pseudo
      suffix, in insertion order) and `__classNameMap` (class id to the
      name last built for it; `None` where the name was left undefined). */
  class SmartCSS {
    const prefixClassId: bool
    const data: SharedData
    var styleClasses: seq<(string, StyleClass)>
    var classNameMap: map<string, Option<string>>

    ghost predicate Valid()
      reads this
    {
      Consistent(styleClasses, classNameMap)
    }

    /** `new SmartCSS({prefixClassId})`: empty tables, and the instance is
        appended to the shared list. */
    constructor(prefixClassId: bool, data: SharedData)
      modifies data
      ensures this.prefixClassId == prefixClassId && this.data == data
      ensures styleClasses == [] && classNameMap == map[]
      ensures data.contexts == old(data.contexts) + [this]
      ensures data.styles == old(data.styles) && data.id == old(data.id) && data.issued == old(data.issued)
      ensures Valid()
    {
      this.prefixClassId := prefixClassId;
      this.data := data;
      styleClasses := [];
      classNameMap := map[];
      new;
      data.RegisterContext(this);
    }

    /** `getClass`. */
    function GetClass(classId: string): string
      reads this
    {
      ClassNameOf(classNameMap, classId)
    }

    /** `getStyleClasses`: the rules in table order. */
    function StyleClasses(): seq<StyleClass>
      reads this
    {
      Values(styleClasses)
    }

    /** `setClass(selector, styleDef, {className, media})`. */
    method SetClass(selector: string, styleDef: seq<(string, Val)>, className: Option<string>, media: Option<string>)
      returns (rule: StyleClass)
      requires Valid() && data.Valid()
      modifies this, data
      ensures var (classId, pseudo) := SplitSelector(selector);
        && rule == StyleClass(
             if className.Some? then className.value
             else GeneratedName(BaseClassName(old(styleClasses), classId), prefixClassId, classId, old(data.id)),
             pseudo, styleDef, media)
        && styleClasses == Put(old(styleClasses), classId + pseudo, rule)
        && classNameMap == old(classNameMap)[classId := if className.Some? then None else Some(rule.className)]
      ensures className.None? ==> data.id == old(data.id) + 1 && data.issued == old(data.issued)[old(data.id) := rule.className]
      ensures className.Some? ==> data.id == old(data.id) && data.issued == old(data.issued)
      ensures className.None? ==> forall k | k in old(data.issued) :: old(data.issued)[k] != rule.className
      ensures data.styles == old(data.styles) && data.contexts == old(data.contexts)
      ensures Valid() && data.Valid()
    {
      var (classId, pseudo) := SplitSelector(selector);
      SplitSelectorParts(selector);
      var rules, names := styleClasses, classNameMap;
      var localName: Option<string> := None;
      var finalName: string;
      if className.None? {
        var name := "c";
        var existing := Lookup(rules, classId);
        if existing.Some? {
          name := existing.value.className;
        }
        ghost var base := name;
        if prefixClassId {
          name := name + "-" + classId;
        }
        ghost var before := data.issued;
        var n := data.NextId();
        name := name + "-" + NatToString(n);
        GeneratedNameInSteps(base, prefixClassId, classId, n);
        GeneratedNameShape(base, prefixClassId, classId, n);
        FreshNameDiffers(before, n, name);
        data.Record(n, name);
        localName := Some(name);
        finalName := name;
      } else {
        finalName := className.value;
      }
      rule := StyleClass(finalName, pseudo, styleDef, media);
      RegisterKeepsConsistent(rules, names, classId, pseudo, rule, className.Some?);
      classNameMap := names[classId := localName];
      styleClasses := Put(rules, classId + pseudo, rule);
    }

    /** `getClasses(styleNames, asArray)`. */
    method GetClasses(styleNames: seq<(string, bool)>, asArray: bool) returns (r: Classes)
      ensures r == if asArray then ClassArray(SelectedClasses(classNameMap, styleNames))
                   else ClassString(Join(SelectedClasses(classNameMap, styleNames), " "))
    {
      var classesAsArray: seq<string> := [];
      var i := 0;
      while i < |styleNames|
        invariant 0 <= i <= |styleNames|
        invariant classesAsArray == SelectedClasses(classNameMap, styleNames[..i])
      {
        assert styleNames[..i + 1][..i] == styleNames[..i];
        if styleNames[i].1 {
          classesAsArray := classesAsArray + [GetClass(styleNames[i].0)];
        }
        i := i + 1;
      }
      assert styleNames[..i] == styleNames;
      if asArray {
        r := ClassArray(classesAsArray);
      } else {
        r := ClassString(Join(classesAsArray, " "));
      }
    }
  }
}
