/**
 * The JSON-LD safety filter of the structured-data component: a check that an
 * object carries `@context` and `@type` and no dangerous string anywhere among
 * its values, and the escaping applied to the serialised JSON before it is put
 * inside a `<script>` element.
 */
module StructuredData {
  import opened Wrappers
  import opened JsString

  /** A JSON value; numbers are integers, and object members keep their order. */
  datatype Json =
    | JNull
    | JBool(b: bool)
    | JNum(n: int)
    | JStr(s: string)
    | JArr(items: seq<Json>)
    | JObj(members: seq<(string, Json)>)

  /** JavaScript truthiness of a JSON value. */
  predicate Truthy(v: Json) {
    match v
    case JNull => false
    case JBool(b) => b
    case JNum(n) => n != 0
    case JStr(s) => s != []
    case JArr(_) => true
    case JObj(_) => true
  }

  /** `obj[key]`: the first member with that name, or nothing (`undefined`). */
  function Lookup(members: seq<(string, Json)>, key: string): (v: Option<Json>)
    ensures v.Some? <==> exists i :: 0 <= i < |members| && members[i].0 == key
    ensures v.Some? ==> exists i :: 0 <= i < |members| && members[i] == (key, v.value)
  {
    if members == [] then None
    else if members[0].0 == key then Some(members[0].1)
    else
      var v := Lookup(members[1..], key);
      assert forall i :: 0 < i < |members| ==> members[1..][i - 1] == members[i];
      v
  }

  /** `/<script[^>]*>/i`: an opening `<script` with a `>` somewhere after it. */
  predicate ScriptTag(l: string) {
    exists i: nat | i <= |l| :: OccursAt(l, "<script", i) && '>' in l[i + 7..]
  }

  /** One of the patterns the filter refuses matches `s`, case-insensitively. */
  predicate Dangerous(s: string) {
    var l := ToLower(s);
    ScriptTag(l) || Contains(l, "javascript:") || Contains(l, "data:") ||
    Contains(l, "vbscript:") || Contains(l, "onload=") || Contains(l, "onerror=") ||
    Contains(l, "onclick=")
  }

  /** `hasUnsafeContent`: a dangerous string among the array elements and object values
      at any depth; object keys are not looked at. */
  predicate HasUnsafeContent(v: Json) {
    match v
    case JStr(s) => Dangerous(s)
    case JArr(items) => exists i :: 0 <= i < |items| && HasUnsafeContent(items[i])
    case JObj(members) => exists i :: 0 <= i < |members| && HasUnsafeContent(members[i].1)
    case _ => false
  }

  /** Every string reachable through array elements and object values, in document order. */
  function ValueStrings(v: Json): seq<string> {
    match v
    case JStr(s) => [s]
    case JArr(items) => ItemStrings(items)
    case JObj(members) => MemberStrings(members)
    case _ => []
  }

  function ItemStrings(items: seq<Json>): seq<string> {
    if items == [] then [] else ValueStrings(items[0]) + ItemStrings(items[1..])
  }

  function MemberStrings(members: seq<(string, Json)>): seq<string> {
    if members == [] then []
    else
      var m := members[0];
      assert m.1 < m;
      ValueStrings(m.1) + MemberStrings(members[1..])
  }

  predicate AnyDangerous(strs: seq<string>) {
    exists k :: 0 <= k < |strs| && Dangerous(strs[k])
  }

  lemma AnyDangerousAppend(a: seq<string>, b: seq<string>)
    ensures AnyDangerous(a + b) <==> AnyDangerous(a) || AnyDangerous(b)
  {
    if AnyDangerous(a + b) {
      var k :| 0 <= k < |a + b| && Dangerous((a + b)[k]);
      if k >= |a| { assert b[k - |a|] == (a + b)[k]; }
    }
    if AnyDangerous(b) {
      var k :| 0 <= k < |b| && Dangerous(b[k]);
      assert (a + b)[|a| + k] == b[k];
    }
    if AnyDangerous(a) {
      var k :| 0 <= k < |a| && Dangerous(a[k]);
      assert (a + b)[k] == a[k];
    }
  }

  /** The recursive check finds something exactly when some value string is dangerous. */
  lemma {:induction false} UnsafeIffDangerousValue(v: Json)
    ensures HasUnsafeContent(v) <==> AnyDangerous(ValueStrings(v))
    decreases v, 2
  {
    match v
    case JStr(s) =>
      assert ValueStrings(v)[0] == s;
    case JArr(items) =>
      ItemsUnsafe(items);
    case JObj(members) =>
      MembersUnsafe(members);
    case _ =>
  }

  lemma {:induction false} ItemsUnsafe(items: seq<Json>)
    ensures (exists i :: 0 <= i < |items| && HasUnsafeContent(items[i])) <==>
            AnyDangerous(ItemStrings(items))
    decreases items, 1
  {
    if items != [] {
      UnsafeIffDangerousValue(items[0]);
      ItemsUnsafe(items[1..]);
      AnyDangerousAppend(ValueStrings(items[0]), ItemStrings(items[1..]));
      assert forall i :: 0 < i < |items| ==> items[1..][i - 1] == items[i];
      if exists i :: 0 <= i < |items| && HasUnsafeContent(items[i]) {
        var i :| 0 <= i < |items| && HasUnsafeContent(items[i]);
        if i > 0 { assert HasUnsafeContent(items[1..][i - 1]); }
      }
    }
  }

  lemma {:induction false} MembersUnsafe(members: seq<(string, Json)>)
    ensures (exists i :: 0 <= i < |members| && HasUnsafeContent(members[i].1)) <==>
            AnyDangerous(MemberStrings(members))
    decreases members, 1
  {
    if members != [] {
      var m := members[0];
      assert m.1 < m;
      UnsafeIffDangerousValue(m.1);
      MembersUnsafe(members[1..]);
      AnyDangerousAppend(ValueStrings(members[0].1), MemberStrings(members[1..]));
      assert forall i :: 0 < i < |members| ==> members[1..][i - 1] == members[i];
      if exists i :: 0 <= i < |members| && HasUnsafeContent(members[i].1) {
        var i :| 0 <= i < |members| && HasUnsafeContent(members[i].1);
        if i > 0 { assert HasUnsafeContent(members[1..][i - 1].1); }
      }
    }
  }

  /** `validateStructuredData`: an object (not null, not an array) whose `@context` and
      `@type` are truthy and in which the recursive check finds nothing unsafe. */
  predicate ValidateStructuredData(data: Json) {
    if !data.JObj? then false
    else
      var ctx := Lookup(data.members, "@context");
      var typ := Lookup(data.members, "@type");
      if ctx.None? || !Truthy(ctx.value) || typ.None? || !Truthy(typ.value) then false
      else !HasUnsafeContent(data)
  }

  /** An entry is valid exactly when it is an object with truthy `@context` and `@type`
      none of whose value strings is dangerous. */
  lemma ValidateStructuredDataExactly(data: Json)
    ensures ValidateStructuredData(data) <==>
      (data.JObj? &&
       (var ctx := Lookup(data.members, "@context"); ctx.Some? && Truthy(ctx.value)) &&
       (var typ := Lookup(data.members, "@type"); typ.Some? && Truthy(typ.value)) &&
       !AnyDangerous(ValueStrings(data)))
  {
    UnsafeIffDangerousValue(data);
  }

  /** `s` with every `c` replaced by `rep` (`replace(/c/g, rep)`). */
  function ReplaceChar(s: string, c: char, rep: string): (r: string)
    ensures c !in rep ==> c !in r
  {
    if s == [] then []
    else (if s[0] == c then rep else [s[0]]) + ReplaceChar(s[1..], c, rep)
  }

  lemma {:induction false} ReplaceCharAppend(a: string, b: string, c: char, rep: string)
    ensures ReplaceChar(a + b, c, rep) == ReplaceChar(a, c, rep) + ReplaceChar(b, c, rep)
  {
    if a == [] {
      assert a + b == b;
    } else {
      assert (a + b)[1..] == a[1..] + b;
      ReplaceCharAppend(a[1..], b, c, rep);
      var h := if a[0] == c then rep else [a[0]];
      calc {
        ReplaceChar(a + b, c, rep);
        h + ReplaceChar(a[1..] + b, c, rep);
        h + (ReplaceChar(a[1..], c, rep) + ReplaceChar(b, c, rep));
        (h + ReplaceChar(a[1..], c, rep)) + ReplaceChar(b, c, rep);
      }
    }
  }

  lemma {:induction false} ReplaceCharAbsent(s: string, c: char, rep: string)
    requires c !in s
    ensures ReplaceChar(s, c, rep) == s
  {
    if s != [] {
      assert c !in s[1..];
      ReplaceCharAbsent(s[1..], c, rep);
    }
  }

  const EscLt: string := "\\u003c"
  const EscGt: string := "\\u003e"
  const EscAmp: string := "\\u0026"
  const EscApos: string := "\\u0027"
  const EscQuot: string := "\\u0022"
  const EscSlash: string := "\\/"

  /** The replacement chain of `escapeJsonForScript`, applied in its order. */
  function EscapeChain(s: string): string {
    ReplaceChar(ReplaceChar(ReplaceChar(ReplaceChar(ReplaceChar(ReplaceChar(
      s, '<', EscLt), '>', EscGt), '&', EscAmp), '\'', EscApos), '"', EscQuot), '/', EscSlash)
  }

  /** What one character becomes. */
  function EscapeChar(c: char): string {
    if c == '<' then EscLt
    else if c == '>' then EscGt
    else if c == '&' then EscAmp
    else if c == '\'' then EscApos
    else if c == '"' then EscQuot
    else if c == '/' then EscSlash
    else [c]
  }

  /** The same escaping done in one left-to-right pass. */
  function EscapeEach(s: string): string {
    if s == [] then [] else EscapeChar(s[0]) + EscapeEach(s[1..])
  }

  lemma EscapeChainAppend(a: string, b: string)
    ensures EscapeChain(a + b) == EscapeChain(a) + EscapeChain(b)
  {
    var s0, t0 := a, b;
    ReplaceCharAppend(s0, t0, '<', EscLt);
    var s1, t1 := ReplaceChar(s0, '<', EscLt), ReplaceChar(t0, '<', EscLt);
    ReplaceCharAppend(s1, t1, '>', EscGt);
    var s2, t2 := ReplaceChar(s1, '>', EscGt), ReplaceChar(t1, '>', EscGt);
    ReplaceCharAppend(s2, t2, '&', EscAmp);
    var s3, t3 := ReplaceChar(s2, '&', EscAmp), ReplaceChar(t2, '&', EscAmp);
    ReplaceCharAppend(s3, t3, '\'', EscApos);
    var s4, t4 := ReplaceChar(s3, '\'', EscApos), ReplaceChar(t3, '\'', EscApos);
    ReplaceCharAppend(s4, t4, '"', EscQuot);
    var s5, t5 := ReplaceChar(s4, '"', EscQuot), ReplaceChar(t4, '"', EscQuot);
    ReplaceCharAppend(s5, t5, '/', EscSlash);
  }

  /** Through the whole chain, text free of the six characters is unchanged. */
  lemma EscapeChainPlain(t: string)
    requires '<' !in t && '>' !in t && '&' !in t && '\'' !in t && '"' !in t && '/' !in t
    ensures EscapeChain(t) == t
  {
    ReplaceCharAbsent(t, '<', EscLt);
    ReplaceCharAbsent(t, '>', EscGt);
    ReplaceCharAbsent(t, '&', EscAmp);
    ReplaceCharAbsent(t, '\'', EscApos);
    ReplaceCharAbsent(t, '"', EscQuot);
    ReplaceCharAbsent(t, '/', EscSlash);
  }

  /** A replacement text is never touched by the replacements after it. */
  lemma EscapeChainOne(c: char)
    ensures EscapeChain([c]) == EscapeChar(c)
  {
    var e := EscapeChar(c);
    assert ReplaceChar([c], c, e) == e + ReplaceChar([], c, e);
    if c == '<' {
      assert ReplaceChar([c], '<', EscLt) == EscLt;
      RestOfChain(EscLt, 1);
    } else if c == '>' {
      ReplaceCharAbsent([c], '<', EscLt);
      assert ReplaceChar([c], '>', EscGt) == EscGt;
      RestOfChain(EscGt, 2);
    } else if c == '&' {
      ReplaceCharAbsent([c], '<', EscLt);
      ReplaceCharAbsent([c], '>', EscGt);
      assert ReplaceChar([c], '&', EscAmp) == EscAmp;
      RestOfChain(EscAmp, 3);
    } else if c == '\'' {
      ReplaceCharAbsent([c], '<', EscLt);
      ReplaceCharAbsent([c], '>', EscGt);
      ReplaceCharAbsent([c], '&', EscAmp);
      assert ReplaceChar([c], '\'', EscApos) == EscApos;
      RestOfChain(EscApos, 4);
    } else if c == '"' {
      ReplaceCharAbsent([c], '<', EscLt);
      ReplaceCharAbsent([c], '>', EscGt);
      ReplaceCharAbsent([c], '&', EscAmp);
      ReplaceCharAbsent([c], '\'', EscApos);
      assert ReplaceChar([c], '"', EscQuot) == EscQuot;
      RestOfChain(EscQuot, 5);
    } else if c == '/' {
      ReplaceCharAbsent([c], '<', EscLt);
      ReplaceCharAbsent([c], '>', EscGt);
      ReplaceCharAbsent([c], '&', EscAmp);
      ReplaceCharAbsent([c], '\'', EscApos);
      ReplaceCharAbsent([c], '"', EscQuot);
      assert ReplaceChar([c], '/', EscSlash) == EscSlash;
    } else {
      EscapeChainPlain([c]);
    }
  }

  /** Stages `from + 1` .. 6 of the chain leave a text of the escape alphabet alone. */
  lemma RestOfChain(t: string, from: nat)
    requires 1 <= from <= 5
    requires forall k :: 0 <= k < |t| ==> t[k] == '\\' || t[k] == 'u' || ('0' <= t[k] <= '9') || ('a' <= t[k] <= 'f')
    ensures from <= 1 ==> ReplaceChar(t, '>', EscGt) == t
    ensures from <= 2 ==> ReplaceChar(t, '&', EscAmp) == t
    ensures from <= 3 ==> ReplaceChar(t, '\'', EscApos) == t
    ensures from <= 4 ==> ReplaceChar(t, '"', EscQuot) == t
    ensures ReplaceChar(t, '/', EscSlash) == t
  {
    ReplaceCharAbsent(t, '>', EscGt);
    ReplaceCharAbsent(t, '&', EscAmp);
    ReplaceCharAbsent(t, '\'', EscApos);
    ReplaceCharAbsent(t, '"', EscQuot);
    ReplaceCharAbsent(t, '/', EscSlash);
  }

  /** The chain of replacements is the one-pass, character-by-character escaping. */
  lemma {:induction false} EscapeChainIsEach(s: string)
    ensures EscapeChain(s) == EscapeEach(s)
  {
    if s == [] {
      assert EscapeChain(s) == [];
    } else {
      assert s == [s[0]] + s[1..];
      EscapeChainAppend([s[0]], s[1..]);
      EscapeChainOne(s[0]);
      EscapeChainIsEach(s[1..]);
    }
  }

  /** None of the characters that could end the script element or an attribute. */
  predicate NoMarkup(r: string) {
    '<' !in r && '>' !in r && '&' !in r && '\'' !in r && '"' !in r
  }

  /** Every `/` comes right after a backslash, so `</` cannot appear. */
  predicate SlashesEscaped(r: string) {
    forall k :: 0 <= k < |r| && r[k] == '/' ==> 0 < k && r[k - 1] == '\\'
  }

  predicate SafeForScript(r: string) {
    NoMarkup(r) && SlashesEscaped(r)
  }

  /** Each character's replacement is safe, non-empty and does not start with `/`. */
  lemma EscapeCharSafe(c: char)
    ensures SafeForScript(EscapeChar(c))
    ensures EscapeChar(c) != [] && EscapeChar(c)[0] != '/'
  {
  }

  /** Gluing a safe text in front of a safe text that does not start with `/` is safe. */
  lemma SafeConcat(e: string, rest: string)
    requires SafeForScript(e) && SafeForScript(rest)
    requires rest == [] || rest[0] != '/'
    ensures SafeForScript(e + rest)
  {
    var r := e + rest;
    forall k | 0 <= k < |r| && r[k] == '/'
      ensures 0 < k && r[k - 1] == '\\'
    {
      if k < |e| {
        assert r[k] == e[k] && r[k - 1] == e[k - 1];
      } else {
        assert r[k] == rest[k - |e|] && r[k - 1] == rest[k - |e| - 1];
      }
    }
  }

  lemma {:induction false} EscapeEachSafe(s: string)
    ensures SafeForScript(EscapeEach(s))
    ensures EscapeEach(s) == [] || EscapeEach(s)[0] != '/'
  {
    if s != [] {
      EscapeEachSafe(s[1..]);
      EscapeCharSafe(s[0]);
      SafeConcat(EscapeChar(s[0]), EscapeEach(s[1..]));
    }
  }

  /** `escapeJsonForScript` applied to the serialised JSON text: the result is safe to
      place inside a script element, and it is the one-pass escaping of the text. */
  function EscapeJsonForScript(json: string): (r: string)
    ensures SafeForScript(r)
    ensures r == EscapeEach(json)
  {
    EscapeChainIsEach(json);
    EscapeEachSafe(json);
    EscapeChain(json)
  }

  const EmptyObject: string := "{}"

  /** What `StructuredData` places in its script element; `serialize` stands for
      `JSON.stringify`. */
  function Rendered(data: Json, serialize: Json -> string): (html: string)
    ensures SafeForScript(html)
    ensures !ValidateStructuredData(data) ==> html == EmptyObject
    ensures ValidateStructuredData(data) ==> html == EscapeEach(serialize(data))
  {
    if !ValidateStructuredData(data) then EmptyObject
    else EscapeJsonForScript(serialize(data))
  }

  /** `data.filter(validateStructuredData)` in `MultipleStructuredData`. */
  function FilterValid(items: seq<Json>): (kept: seq<Json>)
    ensures |kept| <= |items|
    ensures forall i :: 0 <= i < |kept| ==> ValidateStructuredData(kept[i])
  {
    if items == [] then []
    else (if ValidateStructuredData(items[0]) then [items[0]] else []) + FilterValid(items[1..])
  }

  /** Exactly the valid entries are kept. */
  lemma {:induction false} FilterValidKeepsValid(items: seq<Json>, x: Json)
    ensures x in FilterValid(items) <==> x in items && ValidateStructuredData(x)
  {
    if items != [] {
      FilterValidKeepsValid(items[1..], x);
      assert items == [items[0]] + items[1..];
    }
  }

  /** Their order is kept: filtering distributes over concatenation. */
  lemma {:induction false} FilterValidAppend(a: seq<Json>, b: seq<Json>)
    ensures FilterValid(a + b) == FilterValid(a) + FilterValid(b)
  {
    if a == [] {
      assert a + b == b;
    } else {
      assert (a + b)[1..] == a[1..] + b;
      FilterValidAppend(a[1..], b);
      var h := if ValidateStructuredData(a[0]) then [a[0]] else [];
      calc {
        FilterValid(a + b);
        h + FilterValid(a[1..] + b);
        h + (FilterValid(a[1..]) + FilterValid(b));
        (h + FilterValid(a[1..])) + FilterValid(b);
      }
    }
  }
}
