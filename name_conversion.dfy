/** `convertName` of the Get Table IDs script: turns a table, field or view
    name into a camelCase property name over ASCII letters and digits, or,
    when the name has none, into `unknown<k>_<name>`. */
module NameConversion {
  import opened Text

  predicate IsUpper(c: char) {
    'A' <= c <= 'Z'
  }

  predicate IsLower(c: char) {
    'a' <= c <= 'z'
  }

  predicate IsAlnum(c: char) {
    IsUpper(c) || IsLower(c) || IsDigit(c)
  }

  /** The characters the pattern `[^ A-Za-z0-9]` does not match. */
  predicate IsNameChar(c: char) {
    c == ' ' || IsAlnum(c)
  }

  predicate NotSpace(c: char) {
    c != ' '
  }

  function LowerChar(c: char): (d: char)
    ensures !IsUpper(d) && (IsAlnum(c) <==> IsAlnum(d)) && (c == ' ' <==> d == ' ')
  {
    if IsUpper(c) then (c as int + 32) as char else c
  }

  function UpperChar(c: char): (d: char)
    ensures !IsLower(d) && (IsAlnum(c) <==> IsAlnum(d)) && (c == ' ' <==> d == ' ')
    ensures !IsUpper(c) ==> LowerChar(d) == c
  {
    if IsLower(c) then (c as int - 32) as char else c
  }

  /** `toLowerCase()` on ASCII text. */
  function Lower(s: string): (t: string)
    ensures |t| == |s| && forall i :: 0 <= i < |s| ==> t[i] == LowerChar(s[i])
  {
    seq(|s|, i requires 0 <= i < |s| => LowerChar(s[i]))
  }

  /** The characters of `s` that `keep` accepts, in order. */
  function Filter(s: string, keep: char -> bool): (t: string)
    ensures |t| <= |s|
    ensures forall i :: 0 <= i < |t| ==> keep(t[i])
  {
    if s == [] then [] else (if keep(s[0]) then [s[0]] else []) + Filter(s[1..], keep)
  }

  /** `name.replace(/[^ A-Za-z0-9]/g, "")`. */
  function KeepNameChars(name: string): string {
    Filter(name, IsNameChar)
  }

  function TrimStart(s: string): (t: string)
    ensures t == [] || t[0] != ' '
  {
    if s != [] && s[0] == ' ' then TrimStart(s[1..]) else s
  }

  function TrimEnd(s: string): (t: string)
    ensures |t| <= |s|
    ensures t == [] || t[|t| - 1] != ' '
  {
    if s != [] && s[|s| - 1] == ' ' then TrimEnd(s[..|s| - 1]) else s
  }

  /** `trim()`: after the filter the only white space left is the space. */
  function Trim(s: string): (t: string) {
    TrimEnd(TrimStart(s))
  }

  /** `split(" ")`: the pieces between single spaces, empty ones included. */
  function Split(s: string): (parts: seq<string>)
    ensures |parts| >= 1
    ensures forall k :: 0 <= k < |parts| ==> ' ' !in parts[k]
    decreases |s|
  {
    if ' ' !in s then [s]
    else
      var i := SpaceAt(s);
      [s[..i]] + Split(s[i + 1..])
  }

  /** The position of the first space. */
  function SpaceAt(s: string): (i: nat)
    requires ' ' in s
    ensures i < |s| && s[i] == ' ' && ' ' !in s[..i]
  {
    if s[0] == ' ' then 0
    else
      var i := 1 + SpaceAt(s[1..]);
      assert s[..i] == [s[0]] + s[1..][..i - 1];
      i
  }

  /** `s.replace(c, r)` with a one-character pattern: the first `c` becomes `r`. */
  function ReplaceFirst(s: string, c: char, r: string): string {
    if s == [] then []
    else if s[0] == c then r + s[1..]
    else [s[0]] + ReplaceFirst(s[1..], c, r)
  }

  /** What the `forEach` appends for the part at position `index`. */
  function Word(part: string, index: nat): string {
    if |part| == 0 then ""
    else if index == 0 then Lower(part)
    else ReplaceFirst(part, part[0], [UpperChar(part[0])])
  }

  /** What the `forEach` appends from part `i` on. */
  function CamelFrom(parts: seq<string>, i: nat): (camel: string)
    requires i <= |parts|
    decreases |parts| - i
  {
    if i == |parts| then "" else Word(parts[i], i) + CamelFrom(parts, i + 1)
  }

  /** The parts line 56 produces. */
  function Parts(name: string): (parts: seq<string>) {
    Split(Lower(Trim(KeepNameChars(name))))
  }

  /** The fallback name for counter value `k`. */
  function Fallback(name: string, k: nat): (fallback: string) {
    "unknown" + NatToString(k) + "_" + name
  }

  /** `convertName(name)` with the counter at `count`: the new name and the
      counter afterwards. */
  function Converted(name: string, count: nat): (r: (string, nat)) {
    var camel := CamelFrom(Parts(name), 0);
    if camel == "" then (Fallback(name, count), count + 1) else (camel, count)
  }

  /** The parts concatenated, spaces dropped. */
  function Concat(parts: seq<string>): string {
    if parts == [] then "" else parts[0] + Concat(parts[1..])
  }

  lemma {:induction false} FilterConcat(a: string, b: string, keep: char -> bool)
    ensures Filter(a + b, keep) == Filter(a, keep) + Filter(b, keep)
    decreases |a|
  {
    if a != [] {
      assert (a + b)[1..] == a[1..] + b;
      FilterConcat(a[1..], b, keep);
    } else {
      assert a + b == b;
    }
  }

  lemma {:induction false} FilterMembers(s: string, keep: char -> bool, c: char)
    ensures c in Filter(s, keep) <==> c in s && keep(c)
    decreases |s|
  {
    if s != [] {
      FilterMembers(s[1..], keep, c);
      assert s == [s[0]] + s[1..];
    }
  }

  /** Dropping the spaces from the filtered name leaves its letters and digits. */
  lemma {:induction false} KeepThenDropSpaces(name: string)
    ensures Filter(KeepNameChars(name), NotSpace) == Filter(name, IsAlnum)
    decreases |name|
  {
    if name != [] {
      KeepThenDropSpaces(name[1..]);
      var head := if IsNameChar(name[0]) then [name[0]] else [];
      FilterConcat(head, Filter(name[1..], IsNameChar), NotSpace);
    }
  }

  lemma {:induction false} TrimStartDropSpaces(s: string)
    ensures Filter(TrimStart(s), NotSpace) == Filter(s, NotSpace)
    ensures forall c :: c in TrimStart(s) ==> c in s
    decreases |s|
  {
    if s != [] && s[0] == ' ' {
      TrimStartDropSpaces(s[1..]);
    }
  }

  lemma {:induction false} TrimEndDropSpaces(s: string)
    ensures Filter(TrimEnd(s), NotSpace) == Filter(s, NotSpace)
    ensures TrimEnd(s) == s[..|TrimEnd(s)|]
    decreases |s|
  {
    if s != [] && s[|s| - 1] == ' ' {
      var s' := s[..|s| - 1];
      TrimEndDropSpaces(s');
      assert s == s' + [' '];
      FilterConcat(s', [' '], NotSpace);
    }
  }

  /** `trim()` removes spaces only, from the ends only. */
  lemma TrimDropSpaces(s: string)
    ensures Filter(Trim(s), NotSpace) == Filter(s, NotSpace)
    ensures forall c :: c in Trim(s) ==> c in s
    ensures Trim(s) == [] || (Trim(s)[0] != ' ' && Trim(s)[|Trim(s)| - 1] != ' ')
  {
    TrimStartDropSpaces(s);
    TrimEndDropSpaces(TrimStart(s));
    var t := TrimStart(s);
    forall c | c in Trim(s) ensures c in s {
      var i :| 0 <= i < |Trim(s)| && Trim(s)[i] == c;
      assert t[i] == c;
    }
    if Trim(s) != [] {
      assert Trim(s)[0] == t[0];
    }
  }

  lemma {:induction false} LowerDropSpaces(s: string)
    ensures Filter(Lower(s), NotSpace) == Lower(Filter(s, NotSpace))
    decreases |s|
  {
    if s != [] {
      LowerDropSpaces(s[1..]);
      assert Lower(s) == [LowerChar(s[0])] + Lower(s[1..]);
      LowerConcat(if s[0] != ' ' then [s[0]] else [], Filter(s[1..], NotSpace));
    }
  }

  lemma LowerConcat(a: string, b: string)
    ensures Lower(a + b) == Lower(a) + Lower(b)
  {
  }

  lemma SplitStep(t: string)
    requires ' ' in t
    ensures Split(t) == [t[..SpaceAt(t)]] + Split(t[SpaceAt(t) + 1..])
  {
  }

  /** `split(" ")` yields one more part than the text has spaces. */
  lemma {:induction false} SplitCount(t: string)
    ensures |Split(t)| == multiset(t)[' '] + 1
    decreases |t|
  {
    if ' ' !in t {
      assert multiset(t)[' '] == 0;
    } else {
      var i := SpaceAt(t);
      SplitStep(t);
      SplitCount(t[i + 1..]);
      assert t == t[..i] + [' '] + t[i + 1..];
      assert multiset(t) == multiset(t[..i]) + multiset{' '} + multiset(t[i + 1..]) by {
        calc {
          multiset(t);
          multiset(t[..i] + [' '] + t[i + 1..]);
          multiset(t[..i] + [' ']) + multiset(t[i + 1..]);
        }
      }
      assert multiset(t[..i])[' '] == 0;
    }
  }

  /** Joining the parts with single spaces gives the text back. */
  lemma {:induction false} SplitJoin(t: string)
    ensures Join(Split(t), " ") == t
    decreases |t|
  {
    if ' ' !in t {
      assert Split(t) == [t];
    } else {
      var i := SpaceAt(t);
      var head, rest := t[..i], t[i + 1..];
      calc {
        Join(Split(t), " ");
        { SplitStep(t); }
        Join([head] + Split(rest), " ");
        { SplitJoin(rest); JoinHead(head, Split(rest), rest); }
        head + " " + rest;
        { assert t == head + " " + rest; }
        t;
      }
    }
  }

  lemma JoinHead(head: string, parts: seq<string>, rest: string)
    requires |parts| >= 1 && Join(parts, " ") == rest
    ensures Join([head] + parts, " ") == head + " " + rest
  {
    JoinConcat([head], parts, " ");
    assert Join([head], " ") == head;
  }

  lemma ConcatCons(p: string, ps: seq<string>)
    ensures Concat([p] + ps) == p + Concat(ps)
  {
    assert ([p] + ps)[1..] == ps;
  }

  lemma FilterSpaceJoin(a: string, rest: string)
    requires ' ' !in a
    ensures Filter(a + [' '] + rest, NotSpace) == a + Filter(rest, NotSpace)
  {
    assert Filter(a + [' '], NotSpace) == a by {
      FilterConcat(a, [' '], NotSpace);
      NoSpaceFilter(a);
      assert Filter([' '], NotSpace) == [];
      assert a + [] == a;
    }
    FilterConcat(a + [' '], rest, NotSpace);
  }

  lemma FilterAroundSpace(t: string, i: nat)
    requires i < |t| && t[i] == ' ' && ' ' !in t[..i]
    ensures Filter(t, NotSpace) == t[..i] + Filter(t[i + 1..], NotSpace)
  {
    assert t == t[..i] + [' '] + t[i + 1..];
    FilterSpaceJoin(t[..i], t[i + 1..]);
  }

  /** The parts of `split(" ")` put back together without the spaces. */
  lemma {:induction false} SplitDropSpaces(t: string)
    ensures Concat(Split(t)) == Filter(t, NotSpace)
    decreases |t|
  {
    if ' ' !in t {
      NoSpaceFilter(t);
      ConcatCons(t, []);
    } else {
      var i := SpaceAt(t);
      var rest := t[i + 1..];
      SplitStep(t);
      ConcatCons(t[..i], Split(rest));
      FilterAroundSpace(t, i);
      SplitDropSpaces(rest);
    }
  }

  lemma InTake(t: string, i: nat, c: char)
    requires i <= |t| && c in t[..i]
    ensures c in t
  {
    var m :| 0 <= m < i && t[..i][m] == c;
    assert t[m] == c;
  }

  lemma InDrop(t: string, i: nat, c: char)
    requires i <= |t| && c in t[i..]
    ensures c in t
  {
    var m :| 0 <= m < |t| - i && t[i..][m] == c;
    assert t[i + m] == c;
  }

  lemma SplitHeadChars(t: string, c: char)
    requires ' ' in t && c in Split(t)[0]
    ensures c in t
  {
    SplitStep(t);
    assert Split(t)[0] == t[..SpaceAt(t)];
    InTake(t, SpaceAt(t), c);
  }

  /** Every character of a part is a character of the split string. */
  lemma {:induction false} SplitChars(t: string, k: nat, c: char)
    requires k < |Split(t)| && c in Split(t)[k]
    ensures c in t
    decreases |t|
  {
    if ' ' in t {
      var i := SpaceAt(t);
      var rest := t[i + 1..];
      SplitStep(t);
      if k == 0 {
        SplitHeadChars(t, c);
      } else {
        assert Split(t)[k] == Split(rest)[k - 1];
        SplitChars(rest, k - 1, c);
        InDrop(t, i + 1, c);
      }
    } else {
      assert Split(t) == [t];
    }
  }

  lemma {:induction false} NoSpaceFilter(s: string)
    requires ' ' !in s
    ensures Filter(s, NotSpace) == s
    decreases |s|
  {
    if s != [] {
      NoSpaceFilter(s[1..]);
      assert s == [s[0]] + s[1..];
    }
  }

  /** With a one-character pattern taken from the string itself, `replace`
      changes the first character. */
  lemma ReplaceFirstHead(p: string, r: string)
    requires p != []
    ensures ReplaceFirst(p, p[0], r) == r + p[1..]
  {
  }

  /** A part that is already lower case comes back from `Word` changed in case only. */
  lemma LowerWord(p: string, i: nat)
    requires forall c :: c in p ==> !IsUpper(c)
    ensures Lower(Word(p, i)) == p
  {
    if p != [] {
      if i == 0 {
        assert forall j :: 0 <= j < |p| ==> LowerChar(p[j]) == p[j] by {
          forall j | 0 <= j < |p| ensures LowerChar(p[j]) == p[j] { assert p[j] in p; }
        }
      } else {
        ReplaceFirstHead(p, [UpperChar(p[0])]);
        assert p[0] in p;
        forall j | 0 <= j < |p| ensures Lower(Word(p, i))[j] == p[j] { assert p[j] in p; }
      }
    }
  }

  lemma {:induction false} LowerCamel(parts: seq<string>, i: nat)
    requires i <= |parts|
    requires forall k, c :: 0 <= k < |parts| && c in parts[k] ==> !IsUpper(c)
    ensures Lower(CamelFrom(parts, i)) == Concat(parts[i..])
    decreases |parts| - i
  {
    if i < |parts| {
      LowerCamel(parts, i + 1);
      LowerWord(parts[i], i);
      LowerConcat(Word(parts[i], i), CamelFrom(parts, i + 1));
      assert parts[i..][1..] == parts[i + 1..];
    }
  }

  lemma {:induction false} FilterEmpty(s: string, keep: char -> bool)
    ensures Filter(s, keep) == [] <==> forall i :: 0 <= i < |s| ==> !keep(s[i])
  {
    forall c ensures c in Filter(s, keep) <==> c in s && keep(c) {
      FilterMembers(s, keep, c);
    }
    if Filter(s, keep) != [] {
      assert Filter(s, keep)[0] in Filter(s, keep);
    }
    if i :| 0 <= i < |s| && keep(s[i]) {
      assert s[i] in Filter(s, keep);
    }
  }

  /** The parts are made of lower-case letters and digits. */
  lemma PartsChars(name: string, k: nat, c: char)
    requires k < |Parts(name)| && c in Parts(name)[k]
    ensures IsAlnum(c) && !IsUpper(c)
  {
    var kept := KeepNameChars(name);
    var trimmed := Trim(kept);
    var t := Lower(trimmed);
    SplitChars(t, k, c);
    TrimDropSpaces(kept);
    var j :| 0 <= j < |t| && t[j] == c;
    assert trimmed[j] in trimmed;
    FilterMembers(name, IsNameChar, trimmed[j]);
  }

  /** Without spaces, the parts are the name's letters and digits, lowered. */
  lemma PartsLetters(name: string)
    ensures Concat(Parts(name)) == Lower(Filter(name, IsAlnum))
  {
    var kept := KeepNameChars(name);
    var trimmed := Trim(kept);
    var t := Lower(trimmed);
    calc {
      Concat(Split(t));
      { SplitDropSpaces(t); }
      Filter(t, NotSpace);
      { LowerDropSpaces(trimmed); }
      Lower(Filter(trimmed, NotSpace));
      { TrimDropSpaces(kept); }
      Lower(Filter(kept, NotSpace));
      { KeepThenDropSpaces(name); }
      Lower(Filter(name, IsAlnum));
    }
  }

  lemma AllPartsChars(name: string)
    ensures forall k, c :: 0 <= k < |Parts(name)| && c in Parts(name)[k] ==> IsAlnum(c) && !IsUpper(c)
  {
    forall k, c | 0 <= k < |Parts(name)| && c in Parts(name)[k] ensures IsAlnum(c) && !IsUpper(c) {
      PartsChars(name, k, c);
    }
  }

  /** Leaving case aside, the camel name is the name's letters and digits in order. */
  lemma CamelLetters(name: string)
    ensures Lower(CamelFrom(Parts(name), 0)) == Lower(Filter(name, IsAlnum))
  {
    var parts := Parts(name);
    AllPartsChars(name);
    assert Lower(CamelFrom(parts, 0)) == Concat(parts) by {
      LowerCamel(parts, 0);
      assert parts[0..] == parts;
    }
    PartsLetters(name);
  }

  /** Every character the camel name is built from is a letter or a digit. */
  lemma {:induction false} CamelAlnum(parts: seq<string>, i: nat)
    requires i <= |parts|
    requires forall k, c :: 0 <= k < |parts| && c in parts[k] ==> IsAlnum(c)
    ensures forall j :: 0 <= j < |CamelFrom(parts, i)| ==> IsAlnum(CamelFrom(parts, i)[j])
    decreases |parts| - i
  {
    if i < |parts| {
      CamelAlnum(parts, i + 1);
      var p := parts[i];
      if p != [] {
        assert p[0] in p;
        if i > 0 {
          ReplaceFirstHead(p, [UpperChar(p[0])]);
        }
        forall j | 0 <= j < |p| ensures IsAlnum(Word(p, i)[j]) { assert p[j] in p; }
      }
    }
  }

  /** `convertName` with the counter at `count`. A name without an ASCII letter
      or digit becomes `unknown<count>_<name>` and moves the counter on by one;
      any other name leaves the counter alone and becomes a name made of
      exactly its letters and digits, in order, changed in case only, that
      does not start with a capital. */
  lemma ConvertedSpec(name: string, count: nat)
    ensures var (newName, next) := Converted(name, count);
            && ((forall i :: 0 <= i < |name| ==> !IsAlnum(name[i])) ==>
                  newName == Fallback(name, count) && next == count + 1)
            && ((exists i :: 0 <= i < |name| && IsAlnum(name[i])) ==>
                  && next == count
                  && Lower(newName) == Lower(Filter(name, IsAlnum))
                  && |newName| > 0
                  && (forall j :: 0 <= j < |newName| ==> IsAlnum(newName[j]))
                  && !IsUpper(newName[0]))
  {
    var parts := Parts(name);
    var camel := CamelFrom(parts, 0);
    CamelLetters(name);
    AllPartsChars(name);
    FilterEmpty(name, IsAlnum);
    assert |Lower(camel)| == |camel|;
    if camel != "" {
      CamelAlnum(parts, 0);
      FirstWordLower(name);
    }
  }

  /** A non-empty camel name starts with the first part, lowered. */
  lemma FirstWordLower(name: string)
    requires CamelFrom(Parts(name), 0) != ""
    ensures !IsUpper(CamelFrom(Parts(name), 0)[0])
  {
    var t := Lower(Trim(KeepNameChars(name)));
    TrimDropSpaces(KeepNameChars(name));
    var parts := Parts(name);
    if t == [] {
      assert false;
    }
    assert t[0] != ' ';
    if ' ' in t {
      assert SpaceAt(t) != 0;
    }
    assert parts[0] != [];
  }

  /** Reference camelCase of a list of words: the first lowered, every later
      one with its first character upper-cased and the rest lowered. */
  function CamelOf(words: seq<string>): string
    requires forall k :: 0 <= k < |words| ==> words[k] != []
  {
    if words == [] then "" else Lower(words[0]) + Capitalized(words[1..])
  }

  function Capitalized(words: seq<string>): string
    requires forall k :: 0 <= k < |words| ==> words[k] != []
  {
    if words == [] then ""
    else [UpperChar(words[0][0])] + Lower(words[0][1..]) + Capitalized(words[1..])
  }

  /** The non-empty parts, in order. */
  function NonEmpty(parts: seq<string>): (words: seq<string>)
    ensures forall k :: 0 <= k < |words| ==> words[k] != []
  {
    if parts == [] then []
    else (if parts[0] != [] then [parts[0]] else []) + NonEmpty(parts[1..])
  }

  /** A later part is capitalized by the `replace` call. */
  lemma CapitalWord(p: string, i: nat)
    requires p != [] && i >= 1
    requires forall c :: c in p ==> !IsUpper(c)
    ensures Word(p, i) == [UpperChar(p[0])] + Lower(p[1..])
  {
    ReplaceFirstHead(p, [UpperChar(p[0])]);
    assert Lower(p[1..]) == p[1..] by {
      forall j | 1 <= j < |p| ensures LowerChar(p[j]) == p[j] { assert p[j] in p; }
    }
  }

  lemma {:induction false} LaterWords(parts: seq<string>, i: nat)
    requires 1 <= i <= |parts|
    requires forall k, c :: 0 <= k < |parts| && c in parts[k] ==> !IsUpper(c)
    ensures CamelFrom(parts, i) == Capitalized(NonEmpty(parts[i..]))
    decreases |parts| - i
  {
    if i < |parts| {
      LaterWords(parts, i + 1);
      if parts[i] != [] {
        assert forall c :: c in parts[i] ==> !IsUpper(c);
        WordStep(parts, i);
      } else {
        EmptyStep(parts, i);
      }
    }
  }

  lemma WordStep(parts: seq<string>, i: nat)
    requires 1 <= i < |parts| && parts[i] != []
    requires forall c :: c in parts[i] ==> !IsUpper(c)
    requires CamelFrom(parts, i + 1) == Capitalized(NonEmpty(parts[i + 1..]))
    ensures CamelFrom(parts, i) == Capitalized(NonEmpty(parts[i..]))
  {
    var p := parts[i];
    var rest := NonEmpty(parts[i + 1..]);
    assert NonEmpty(parts[i..]) == [p] + rest by {
      assert parts[i..] == [p] + parts[i + 1..];
    }
    calc {
      CamelFrom(parts, i);
      Word(p, i) + Capitalized(rest);
      { CapitalWord(p, i); }
      [UpperChar(p[0])] + Lower(p[1..]) + Capitalized(rest);
      { assert ([p] + rest)[1..] == rest; }
      Capitalized([p] + rest);
    }
  }

  lemma EmptyStep(parts: seq<string>, i: nat)
    requires 1 <= i < |parts| && parts[i] == []
    requires CamelFrom(parts, i + 1) == Capitalized(NonEmpty(parts[i + 1..]))
    ensures CamelFrom(parts, i) == Capitalized(NonEmpty(parts[i..]))
  {
    assert NonEmpty(parts[i..]) == NonEmpty(parts[i + 1..]) by {
      assert parts[i..] == [parts[i]] + parts[i + 1..];
    }
  }

  /** Line 56 leaves an empty first part only when nothing is left at all. */
  lemma FirstPart(name: string)
    ensures Parts(name)[0] == [] ==> Parts(name) == [[]]
  {
    var t := Lower(Trim(KeepNameChars(name)));
    TrimDropSpaces(KeepNameChars(name));
    if t != [] {
      assert t[0] != ' ';
      if ' ' in t {
        assert SpaceAt(t) != 0;
      }
    }
  }

  /** The `forEach` builds the reference camelCase of the non-empty parts: the
      empty parts left by runs of spaces contribute nothing, the first word is
      lowered and every later word is capitalized. */
  lemma CamelWords(name: string)
    ensures CamelFrom(Parts(name), 0) == CamelOf(NonEmpty(Parts(name)))
  {
    var parts := Parts(name);
    FirstPart(name);
    AllPartsChars(name);
    if parts[0] == [] {
      assert CamelFrom(parts, 1) == "";
      assert NonEmpty(parts) == [];
    } else {
      LaterWords(parts, 1);
      assert parts == [parts[0]] + parts[1..];
      assert NonEmpty(parts) == [parts[0]] + NonEmpty(parts[1..]);
    }
  }

  /** The number of digits at the start of `s`. */
  function DigitRun(s: string): nat {
    if s != [] && IsDigit(s[0]) then 1 + DigitRun(s[1..]) else 0
  }

  lemma {:induction false} DigitRunPrefix(d: string, rest: string)
    requires forall i :: 0 <= i < |d| ==> IsDigit(d[i])
    requires rest == [] || !IsDigit(rest[0])
    ensures DigitRun(d + rest) == |d|
    decreases |d|
  {
    if d != [] {
      assert (d + rest)[1..] == d[1..] + rest;
      DigitRunPrefix(d[1..], rest);
    } else {
      assert d + rest == rest;
    }
  }

  /** Fallback names made with different counter values never coincide,
      whatever the names: the digits after `unknown` run up to the `_`. */
  lemma FallbackDistinct(a: string, b: string, j: nat, k: nat)
    requires j != k
    ensures Fallback(a, j) != Fallback(b, k)
  {
    var dj := NatToString(j);
    var dk := NatToString(k);
    var sa := Fallback(a, j);
    var sb := Fallback(b, k);
    assert sa == "unknown" + dj + "_" + a;
    assert sb == "unknown" + dk + "_" + b;
    if sa == sb {
      assert sa[7..] == dj + ("_" + a);
      assert sb[7..] == dk + ("_" + b);
      DigitRunPrefix(dj, "_" + a);
      DigitRunPrefix(dk, "_" + b);
      assert dj == sa[7..7 + |dj|] == dk;
      NatToStringInjective(j, k);
    }
  }
}
