/** Message lookup and `{name}` templating (src/page/i18n.ts).

    The message table (a JSON file bundled with the extension) is a parameter:
    `messages` maps a key to its template.  The optional `vars` record maps a
    placeholder name to a string or a number.  The regular expression
    `/\{(\w+)\}/g` is modelled by a left-to-right scanner: at each position it
    tries to match `{`, one or more word characters and `}`; on a match the
    placeholder is replaced and scanning resumes after it, otherwise one
    character is copied and scanning resumes at the next one. */
module I18n {
  import opened Wrappers

  /** A value of the `vars` record: `string | number` (numbers as integers). */
  datatype VarValue = Text(s: string) | Number(n: int)

  /** The regular-expression class `\w`: ASCII letters, digits and underscore. */
  predicate IsWordChar(c: char) {
    ('a' <= c <= 'z') || ('A' <= c <= 'Z') || ('0' <= c <= '9') || c == '_'
  }

  predicate IsWord(s: string) {
    |s| >= 1 && forall i :: 0 <= i < |s| ==> IsWordChar(s[i])
  }

  function DigitChar(d: nat): (c: char)
    requires d < 10
    ensures '0' <= c <= '9' && (c as int) - ('0' as int) == d
  {
    ['0', '1', '2', '3', '4', '5', '6', '7', '8', '9'][d]
  }

  predicate IsDecimal(s: string) {
    |s| >= 1 && forall i :: 0 <= i < |s| ==> '0' <= s[i] <= '9'
  }

  /** Decimal rendering of a non-negative integer, without leading zeros. */
  function NatToString(n: nat): (s: string)
    ensures |s| >= 1
    ensures forall i :: 0 <= i < |s| ==> '0' <= s[i] <= '9'
    ensures (s[0] == '0') <==> n == 0
    ensures |s| > 1 ==> s[0] != '0'
  {
    if n < 10 then [DigitChar(n)] else NatToString(n / 10) + [DigitChar(n % 10)]
  }

  /** Reads a string of decimal digits back as a number (inverse of NatToString). */
  function ParseDecimal(s: string): nat
    requires forall i :: 0 <= i < |s| ==> '0' <= s[i] <= '9'
  {
    if |s| == 0 then 0
    else ParseDecimal(s[..|s| - 1]) * 10 + ((s[|s| - 1] as int) - ('0' as int))
  }

  lemma {:induction false} ParseNatToString(n: nat)
    ensures ParseDecimal(NatToString(n)) == n
  {
    if n >= 10 {
      var prefix := NatToString(n / 10);
      var s := prefix + [DigitChar(n % 10)];
      assert s[..|s| - 1] == prefix;
      ParseNatToString(n / 10);
    }
  }

  /** `String(value)`: a string as itself, a number in decimal without leading
      zeros, with a leading `-` when negative. */
  function Display(v: VarValue): (s: string)
    ensures v.Text? ==> s == v.s
    ensures v.Number? && v.n >= 0 ==> IsDecimal(s) && ParseDecimal(s) == v.n && (|s| > 1 ==> s[0] != '0')
    ensures v.Number? && v.n < 0 ==>
      |s| >= 2 && s[0] == '-' && IsDecimal(s[1..]) && ParseDecimal(s[1..]) == -v.n && s[1] != '0'
  {
    match v
    case Text(t) => t
    case Number(n) =>
      if n >= 0 then ParseNatToString(n); NatToString(n)
      else ParseNatToString(-n); assert ("-" + NatToString(-n))[1..] == NatToString(-n); "-" + NatToString(-n)
  }

  /** Length of the run of word characters at the start of `s`. */
  function WordRunLength(s: string): (n: nat)
    ensures n <= |s|
    ensures forall i :: 0 <= i < n ==> IsWordChar(s[i])
    ensures n < |s| ==> !IsWordChar(s[n])
  {
    if |s| == 0 || !IsWordChar(s[0]) then 0 else 1 + WordRunLength(s[1..])
  }

  /** If `s` starts with a placeholder `{name}` (name made of one or more word
      characters), the length of its name. */
  function PlaceholderAt(s: string): (r: Option<nat>)
    ensures r.Some? ==> 1 <= r.value && r.value + 2 <= |s| && s[0] == '{'
                        && IsWord(s[1..1 + r.value]) && s[1 + r.value] == '}'
  {
    if |s| == 0 || s[0] != '{' then None
    else
      var n := WordRunLength(s[1..]);
      if 1 <= n && n + 1 < |s| && s[n + 1] == '}' then Some(n) else None
  }

  lemma PlaceholderAtWord(name: string, rest: string)
    requires IsWord(name)
    ensures PlaceholderAt("{" + name + "}" + rest) == Some(|name|)
  {
    var s := "{" + name + "}" + rest;
    assert s[1..][|name|] == '}';
    assert forall i :: 0 <= i < |name| ==> s[1..][i] == name[i];
    var n := WordRunLength(s[1..]);
    assert n == |name|;
  }

  /** What one placeholder `{name}` is replaced with: `String(vars[name] ?? "{name}")`. */
  function Replacement(name: string, vars: map<string, VarValue>): string {
    if name in vars then Display(vars[name]) else "{" + name + "}"
  }

  /** `template.replace(/\{(\w+)\}/g, ...)` */
  function Substitute(s: string, vars: map<string, VarValue>): string
    decreases |s|
  {
    if |s| == 0 then ""
    else match PlaceholderAt(s)
      case Some(n) => Replacement(s[1..1 + n], vars) + Substitute(s[n + 2..], vars)
      case None => [s[0]] + Substitute(s[1..], vars)
  }

  /** The name of the placeholder that starts at position `i` of `s`, if one does. */
  function PlaceholderNameAt(s: string, i: nat): Option<string>
    requires i <= |s|
  {
    match PlaceholderAt(s[i..])
    case Some(n) => Some(s[i + 1..i + 1 + n])
    case None => None
  }

  lemma PlaceholderNameAtShift(s: string, k: nat, i: nat)
    requires k + i <= |s|
    ensures PlaceholderNameAt(s[k..], i) == PlaceholderNameAt(s, k + i)
  {
    assert s[k..][i..] == s[k + i..];
    match PlaceholderAt(s[k + i..])
    case Some(n) => assert s[k..][i + 1..i + 1 + n] == s[k + i + 1..k + i + 1 + n];
    case None =>
  }

  /** Every placeholder occurring in `s` names a variable that `vars` lacks. */
  ghost predicate OnlyUnknownPlaceholders(s: string, vars: map<string, VarValue>) {
    forall i :: 0 <= i < |s| && PlaceholderNameAt(s, i).Some? ==> PlaceholderNameAt(s, i).value !in vars
  }

  ghost predicate NoPlaceholders(s: string) {
    forall i :: 0 <= i < |s| ==> PlaceholderAt(s[i..]).None?
  }

  /** `t(key, vars)`: look the key up, falling back to the key itself, then fill placeholders. */
  function T(messages: map<string, string>, key: string, vars: Option<map<string, VarValue>>): (r: string)
    ensures key !in messages && vars.None? ==> r == key
    ensures key in messages && vars.None? ==> r == messages[key]
    ensures vars.Some? && key in messages && NoPlaceholders(messages[key]) ==> r == messages[key]
    ensures vars.Some? && key !in messages && NoPlaceholders(key) ==> r == key
  {
    var template := if key in messages then messages[key] else key;
    if vars.None? then template
    else
      assert NoPlaceholders(template) ==> Substitute(template, vars.value) == template by {
        if NoPlaceholders(template) { NoPlaceholdersUnchanged(template, vars.value); }
      }
      Substitute(template, vars.value)
  }

  /** A placeholder whose name is absent from `vars` is kept literally, so a
      template whose placeholders are all unknown comes back unchanged. */
  lemma {:induction false} UnknownPlaceholdersKept(s: string, vars: map<string, VarValue>)
    requires OnlyUnknownPlaceholders(s, vars)
    ensures Substitute(s, vars) == s
    decreases |s|
  {
    if |s| > 0 {
      var k := if PlaceholderAt(s).Some? then PlaceholderAt(s).value + 2 else 1;
      var tail := s[k..];
      OnlyUnknownPlaceholdersTail(s, k, vars);
      UnknownPlaceholdersKept(tail, vars);
      FirstStepKept(s, vars);
    }
  }

  lemma OnlyUnknownPlaceholdersTail(s: string, k: nat, vars: map<string, VarValue>)
    requires k <= |s| && OnlyUnknownPlaceholders(s, vars)
    ensures OnlyUnknownPlaceholders(s[k..], vars)
  {
    forall i | 0 <= i < |s[k..]| && PlaceholderNameAt(s[k..], i).Some?
      ensures PlaceholderNameAt(s[k..], i).value !in vars
    {
      PlaceholderNameAtShift(s, k, i);
    }
  }

  /** The first step of the scan over a template whose placeholders are all unknown copies its input. */
  lemma FirstStepKept(s: string, vars: map<string, VarValue>)
    requires |s| > 0 && OnlyUnknownPlaceholders(s, vars)
    ensures var k := if PlaceholderAt(s).Some? then PlaceholderAt(s).value + 2 else 1;
            k <= |s| && Substitute(s, vars) == s[..k] + Substitute(s[k..], vars)
  {
    match PlaceholderAt(s)
    case Some(n) =>
      assert s[0..] == s;
      assert PlaceholderNameAt(s, 0) == Some(s[1..1 + n]);
      assert Replacement(s[1..1 + n], vars) == s[..n + 2];
    case None =>
  }

  lemma NoPlaceholdersUnchanged(s: string, vars: map<string, VarValue>)
    requires NoPlaceholders(s)
    ensures Substitute(s, vars) == s
  {
    assert forall i :: 0 <= i < |s| ==> PlaceholderNameAt(s, i).None?;
    UnknownPlaceholdersKept(s, vars);
  }

  /** A placeholder at the front is replaced, and scanning resumes right after its `}`. */
  lemma SubstituteLeadingPlaceholder(name: string, rest: string, vars: map<string, VarValue>)
    requires IsWord(name)
    ensures Substitute("{" + name + "}" + rest, vars) == Replacement(name, vars) + Substitute(rest, vars)
  {
    var s := "{" + name + "}" + rest;
    PlaceholderAtWord(name, rest);
    assert s[1..1 + |name|] == name;
    assert s[|name| + 2..] == rest;
  }

  /** A known placeholder becomes the string form of its value. */
  lemma KnownPlaceholderReplaced(name: string, rest: string, vars: map<string, VarValue>)
    requires IsWord(name) && name in vars
    ensures Substitute("{" + name + "}" + rest, vars) == Display(vars[name]) + Substitute(rest, vars)
  {
    SubstituteLeadingPlaceholder(name, rest, vars);
  }

  /** An unknown placeholder is copied as the literal `{name}`. */
  lemma UnknownPlaceholderKept(name: string, rest: string, vars: map<string, VarValue>)
    requires IsWord(name) && name !in vars
    ensures Substitute("{" + name + "}" + rest, vars) == "{" + name + "}" + Substitute(rest, vars)
  {
    SubstituteLeadingPlaceholder(name, rest, vars);
  }

  /** Text without any `{` is copied through unchanged and does not disturb what follows. */
  lemma {:induction false} SubstitutePlainPrefix(text: string, rest: string, vars: map<string, VarValue>)
    requires '{' !in text
    ensures Substitute(text + rest, vars) == text + Substitute(rest, vars)
    decreases |text|
  {
    if |text| > 0 {
      var s := text + rest;
      assert s[0] == text[0];
      assert PlaceholderAt(s).None?;
      assert s[1..] == text[1..] + rest;
      assert '{' !in text[1..];
      assert Substitute(s, vars) == [s[0]] + Substitute(s[1..], vars);
      SubstitutePlainPrefix(text[1..], rest, vars);
      assert text == [text[0]] + text[1..];
    } else {
      assert text + rest == rest;
    }
  }
}
