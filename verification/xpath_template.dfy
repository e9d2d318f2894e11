/** How the table processor builds its XPath expressions: the table locator
    derived from the optional table class, and Python's str.format applied
    to a heading or row template with the single keyword TABLE_XPATH. */
module XPathTemplate {
  import opened Errors
  import opened TextUtil

  const AnyTable := "//table"
  const ClassPrefix := "//table[@class=\""
  const ClassSuffix := "\"]"
  const Field := "TABLE_XPATH"

  /** A class is used only when it is present and non-empty (Python truthiness). */
  predicate HasClass(tableClass: Option<string>) {
    tableClass.Some? && tableClass.value != ""
  }

  /** The table locator: `//table[@class="C"]` for a non-empty class C,
      `//table` otherwise. */
  function TableXPath(tableClass: Option<string>): (loc: string)
    ensures |loc| >= |AnyTable| && loc[..|AnyTable|] == AnyTable
    ensures loc == AnyTable <==> !HasClass(tableClass)
  {
    if HasClass(tableClass) then ClassPrefix + tableClass.value + ClassSuffix else AnyTable
  }

  /** Reads the class back out of a locator of the class-filtered shape. */
  function ClassOfLocator(loc: string): Option<string>
  {
    if |loc| > |ClassPrefix| + |ClassSuffix|
       && loc[..|ClassPrefix|] == ClassPrefix
       && loc[|loc| - |ClassSuffix|..] == ClassSuffix
    then Some(loc[|ClassPrefix|..|loc| - |ClassSuffix|])
    else None
  }

  /** The locator determines the class it was built from: exactly the
      non-empty class, or none for an absent or empty one. */
  lemma ClassOfTableXPath(tableClass: Option<string>)
    ensures ClassOfLocator(TableXPath(tableClass)) ==
            if HasClass(tableClass) then tableClass else None
  {
    var loc := TableXPath(tableClass);
    if HasClass(tableClass) {
      var c := tableClass.value;
      assert loc[..|ClassPrefix|] == ClassPrefix;
      assert loc[|loc| - |ClassSuffix|..] == ClassSuffix;
      assert loc[|ClassPrefix|..|loc| - |ClassSuffix|] == c;
    }
  }

  /** Two classes give the same locator exactly when both are unused, or both
      are the same non-empty class. */
  lemma TableXPathInjective(a: Option<string>, b: Option<string>)
    ensures TableXPath(a) == TableXPath(b) <==>
            (!HasClass(a) && !HasClass(b)) || (HasClass(a) && HasClass(b) && a.value == b.value)
  {
    ClassOfTableXPath(a);
    ClassOfTableXPath(b);
  }

  // ---------------------------------------------------------------------
  // str.format(TABLE_XPATH=loc)

  /** Python's `template.format(TABLE_XPATH=loc)`, read left to right as
      CPython reads it: `{{` and `}}` stand for single braces, a lone `}` or
      a `{` at the very end is malformed, and every other `{` opens a
      replacement field, which is first parsed (ParseField) and then looked
      up (FieldValue) before anything after it is read. */
  function Format(t: string, loc: string): (r: Result<string>)
    ensures '{' !in t && '}' !in t ==> r == Ok(t)
    ensures r.Err? ==> r.error.FormatError? || r.error.KeyError? || r.error.IndexError? || r.error.Unmodelled?
    decreases |t|
  {
    if |t| == 0 then Ok("")
    else if t[0] == '{' then
      if |t| >= 2 && t[1] == '{' then PrefixWith("{", Format(t[2..], loc))
      else if |t| == 1 then Err(FormatError("Single '{' encountered in format string"))
      else FormatField(t[1..], loc)
    else if t[0] == '}' then
      if |t| >= 2 && t[1] == '}' then PrefixWith("}", Format(t[2..], loc))
      else Err(FormatError("Single '}' encountered in format string"))
    else
      assert t == [t[0]] + t[1..];
      PrefixWith([t[0]], Format(t[1..], loc))
  }

  /** Formatting from just after a field's opening brace: the field is
      parsed and looked up, and formatting goes on after its closing brace. */
  function FormatField(s: string, loc: string): (r: Result<string>)
    ensures r.Err? ==> r.error.FormatError? || r.error.KeyError? || r.error.IndexError? || r.error.Unmodelled?
    decreases |s|
  {
    var f :- ParseField(s);
    var v :- FieldValue(f, loc);
    PrefixWith(v, Format(f.after, loc))
  }

  /** A replacement field as CPython's parser splits it: the field name, the
      conversion character after `!`, the format spec after `:`, and the
      template text after the field's closing brace. */
  datatype Replacement = Replacement(name: string, conversion: Option<char>, spec: string, after: string)

  const NoClose := "expected '}' before end of string"
  const UnmatchedSpec := "unmatched '{' in format spec"

  /** The characters that end a field name. */
  predicate EndsName(c: char) {
    c == '}' || c == ':' || c == '!'
  }

  /** A character the name scan steps over without further ado. */
  predicate PlainNameChar(c: char) {
    !EndsName(c) && c != '{' && c != '['
  }

  /** Where the scan of a field name, at position i of the text after `{`,
      stops: the first `}`, `:` or `!`, except that a `[` skips ahead to the
      next `]`. A `{` in the name is malformed, and so is running out of text
      (also when a `[` is never closed). */
  function NameEnd(s: string, i: nat): (r: Result<nat>)
    requires i <= |s|
    ensures r.Ok? ==> i <= r.value < |s| && EndsName(s[r.value])
    ensures r.Err? ==> r == Err(FormatError(NoClose)) || r == Err(FormatError("unexpected '{' in field name"))
    decreases |s| - i
  {
    if i == |s| then Err(FormatError(NoClose))
    else if s[i] == '{' then Err(FormatError("unexpected '{' in field name"))
    else if EndsName(s[i]) then Ok(i)
    else if s[i] == '[' then
      if ']' in s[i + 1..] then NameEnd(s, i + 1 + IndexOf(s[i + 1..], ']'))
      else Err(FormatError(NoClose))
    else NameEnd(s, i + 1)
  }

  /** Where a format spec starting at i ends: at the `}` that balances the
      field's opening brace, with `depth` braces open. */
  function SpecEnd(s: string, i: nat, depth: nat): (r: Result<nat>)
    requires i <= |s| && depth >= 1
    ensures r.Ok? ==> i <= r.value < |s| && s[r.value] == '}'
    ensures r.Err? ==> r == Err(FormatError(UnmatchedSpec))
    decreases |s| - i
  {
    if i == |s| then Err(FormatError(UnmatchedSpec))
    else if s[i] == '{' then SpecEnd(s, i + 1, depth + 1)
    else if s[i] == '}' then
      if depth == 1 then Ok(i) else SpecEnd(s, i + 1, depth - 1)
    else SpecEnd(s, i + 1, depth)
  }

  /** Parses the text after a field's `{`: the name up to `}`, `:` or `!`;
      after `!` exactly one conversion character, then `}` or `:`; after `:`
      a format spec up to the balancing `}`. */
  function ParseField(s: string): (r: Result<Replacement>)
    ensures r.Ok? ==> |r.value.after| < |s| && r.value.after == s[|s| - |r.value.after|..]
    ensures r.Ok? ==> |r.value.name| < |s| && r.value.name == s[..|r.value.name|]
    ensures r.Err? ==> r.error.FormatError?
  {
    var j :- NameEnd(s, 0);
    var name := s[..j];
    if s[j] == '}' then Ok(Replacement(name, None, "", s[j + 1..]))
    else if s[j] == ':' then
      var e :- SpecEnd(s, j + 1, 1);
      Ok(Replacement(name, None, s[j + 1..e], s[e + 1..]))
    else if j + 1 == |s| then Err(FormatError("end of string while looking for conversion specifier"))
    else if j + 2 < |s| && s[j + 2] == '}' then Ok(Replacement(name, Some(s[j + 1]), "", s[j + 3..]))
    else if j + 2 < |s| && s[j + 2] != ':' then Err(FormatError("expected ':' after conversion specifier"))
    else
      var k := if j + 2 < |s| then j + 3 else j + 2;
      var e :- SpecEnd(s, k, 1);
      Ok(Replacement(name, Some(s[j + 1]), s[k..e], s[e + 1..]))
  }

  /** Characters that end the argument name inside a field name: attribute
      access and indexing. */
  predicate EndsArgName(c: char) {
    c == '.' || c == '['
  }

  /** The argument name a field name refers to: its text up to the first
      attribute access or index. */
  function ArgName(f: string): (a: string)
    ensures |a| <= |f| && a == f[..|a|]
    ensures forall i :: 0 <= i < |a| ==> !EndsArgName(a[i])
    ensures |a| < |f| ==> EndsArgName(f[|a|])
    decreases |f|
  {
    if |f| == 0 || EndsArgName(f[0]) then "" else [f[0]] + ArgName(f[1..])
  }

  /** The largest index CPython reads from a field name (Py_ssize_t). */
  const SsizeMax := 0x7fff_ffff_ffff_ffff
  const TooManyDigits := "Too many decimal digits in format string"

  function IndexMessage(n: nat): string {
    "Replacement index " + NatToString(n) + " out of range for positional args tuple"
  }

  /** The conversions str.format knows: str, repr and ascii. */
  predicate IsConversion(c: char) {
    c == 's' || c == 'r' || c == 'a'
  }

  /** The message for a conversion other than `s`, `r` and `a`: the
      character itself when it is printable ASCII, its code in hex otherwise. */
  function ConversionMessage(c: char): string {
    if 32 < c as int < 127 then "Unknown conversion specifier " + [c]
    else "Unknown conversion specifier \\x" + NatToHex(c as int)
  }

  /** What a parsed field yields when the only argument is the keyword
      TABLE_XPATH=loc. The argument name is looked up first: leading digits
      beyond a Py_ssize_t are malformed; an empty name (automatic numbering,
      index 0) or a numeric one asks for a positional argument, of which
      there are none; any other name but TABLE_XPATH is a keyword that was
      not passed. Only then come attribute or index access, the conversion
      and the format spec. TABLE_XPATH is tested first here, which changes
      nothing: it is neither empty nor starts with a digit. */
  function FieldValue(f: Replacement, loc: string): (r: Result<string>)
    ensures r.Ok? ==> f.name == Field && r.value == loc
    ensures r.Err? ==> r.error.FormatError? || r.error.KeyError? || r.error.IndexError? || r.error.Unmodelled?
    ensures ArgName(f.name) != Field ==> r.Err? && !r.error.Unmodelled?
  {
    var first := ArgName(f.name);
    if first == Field then
      if first != f.name then Err(Unmodelled("attribute or index access"))
      else if f.conversion.Some? && !IsConversion(f.conversion.value) then
        Err(FormatError(ConversionMessage(f.conversion.value)))
      else if f.conversion.Some? && f.conversion.value != 's' then Err(Unmodelled("the !r and !a conversions"))
      else if f.spec != "" then Err(Unmodelled("a format spec"))
      else Ok(loc)
    else if DigitsValue(LeadingDigits(first)) > SsizeMax then Err(FormatError(TooManyDigits))
    else if first == "" then Err(IndexError(IndexMessage(0)))
    else if AllDigits(first) then Err(IndexError(IndexMessage(DigitsValue(first))))
    else Err(KeyError(first))
  }

  /** TABLE_XPATH is a plain keyword name: the scan steps over all of it,
      it is its own argument name, and it does not start with a digit. */
  lemma FieldIsPlainName()
    ensures forall i :: 0 <= i < |Field| ==> PlainNameChar(Field[i]) && !EndsArgName(Field[i])
    ensures ArgName(Field) == Field && LeadingDigits(Field) == "" && !AllDigits(Field)
  {
    assert forall i :: 0 <= i < |Field| ==> PlainNameChar(Field[i]) && !EndsArgName(Field[i]);
    ArgNameStops(Field, "");
    assert Field + "" == Field;
    assert !IsDigit(Field[0]);
  }

  /** TABLE_XPATH names its own argument. */
  lemma FieldArgName()
    ensures ArgName(Field) == Field
  {
    FieldIsPlainName();
  }

  /** A template as the author means it: literal characters and slots. */
  datatype Piece = Lit(c: char) | Slot

  /** How one piece is spelled in a format string: braces doubled. */
  function Spelling(p: Piece): string {
    match p
    case Slot => "{" + Field + "}"
    case Lit(c) => if c == '{' then "{{" else if c == '}' then "}}" else [c]
  }

  /** What one piece becomes once the slot is filled with `loc`. */
  function Filled(p: Piece, loc: string): string {
    match p
    case Slot => loc
    case Lit(c) => [c]
  }

  /** The format string spelling those pieces. */
  function Template(ps: seq<Piece>): string
    decreases |ps|
  {
    if |ps| == 0 then "" else Spelling(ps[0]) + Template(ps[1..])
  }

  /** The pieces with every slot replaced by `loc`. */
  function Render(ps: seq<Piece>, loc: string): string
    decreases |ps|
  {
    if |ps| == 0 then "" else Filled(ps[0], loc) + Render(ps[1..], loc)
  }

  // ---------------------------------------------------------------------
  // How the scanners read a field

  /** The name scan steps over plain characters. */
  lemma {:induction false} NameEndSkips(s: string, i: nat, j: nat)
    requires i <= j <= |s|
    requires forall k :: i <= k < j ==> PlainNameChar(s[k])
    ensures NameEnd(s, i) == NameEnd(s, j)
    decreases j - i
  {
    if i < j {
      NameEndSkips(s, i + 1, j);
    }
  }

  /** The spec scan steps over brace-free text at any depth. */
  lemma {:induction false} SpecEndSkips(s: string, i: nat, j: nat, depth: nat)
    requires i <= j <= |s| && depth >= 1
    requires forall k :: i <= k < j ==> s[k] != '{' && s[k] != '}'
    ensures SpecEnd(s, i, depth) == SpecEnd(s, j, depth)
    decreases j - i
  {
    if i < j {
      SpecEndSkips(s, i + 1, j, depth);
    }
  }

  /** The argument name of `n + x` is `n` when `n` holds no `.` or `[` and
      `x` is empty or starts with one. */
  lemma {:induction false} ArgNameStops(n: string, x: string)
    requires forall i :: 0 <= i < |n| ==> !EndsArgName(n[i])
    requires |x| == 0 || EndsArgName(x[0])
    ensures ArgName(n + x) == n
    decreases |n|
  {
    if |n| > 0 {
      assert (n + x)[1..] == n[1..] + x;
      ArgNameStops(n[1..], x);
    }
  }

  /** `n}`: a field without conversion or spec. */
  lemma ParsePlainField(n: string, b: string)
    requires forall i :: 0 <= i < |n| ==> PlainNameChar(n[i])
    ensures ParseField(n + "}" + b) == Ok(Replacement(n, None, "", b))
  {
    var s := n + "}" + b;
    assert NameEnd(s, 0) == Ok(|n|) by {
      NameEndSkips(s, 0, |n|);
      assert s[|n|] == '}';
    }
    assert s[..|n|] == n && s[|n| + 1..] == b;
  }

  /** `n!c}`: a field with conversion `c` and no spec. */
  lemma ParseConvertedField(n: string, c: char, b: string)
    requires forall i :: 0 <= i < |n| ==> PlainNameChar(n[i])
    ensures ParseField(n + "!" + [c] + "}" + b) == Ok(Replacement(n, Some(c), "", b))
  {
    var s := n + "!" + [c] + "}" + b;
    assert NameEnd(s, 0) == Ok(|n|) by {
      NameEndSkips(s, 0, |n|);
      assert s[|n|] == '!';
    }
    assert s[|n| + 1] == c && s[|n| + 2] == '}';
    assert s[..|n|] == n && s[|n| + 3..] == b;
  }

  /** `n:spec}` with a brace-free spec. */
  lemma ParseSpecField(n: string, spec: string, b: string)
    requires forall i :: 0 <= i < |n| ==> PlainNameChar(n[i])
    requires '{' !in spec && '}' !in spec
    ensures ParseField(n + ":" + spec + "}" + b) == Ok(Replacement(n, None, spec, b))
  {
    var s := n + ":" + spec + "}" + b;
    var e := |n| + 1 + |spec|;
    assert NameEnd(s, 0) == Ok(|n|) by {
      NameEndSkips(s, 0, |n|);
      assert s[|n|] == ':';
    }
    assert SpecEnd(s, |n| + 1, 1) == Ok(e) by {
      assert forall k :: |n| + 1 <= k < e ==> s[k] == spec[k - |n| - 1];
      SpecEndSkips(s, |n| + 1, e, 1);
      assert s[e] == '}';
    }
    assert s[..|n|] == n && s[|n| + 1..e] == spec && s[e + 1..] == b;
  }

  /** `n!c:spec}` with a brace-free spec. */
  lemma ParseConvertedSpecField(n: string, c: char, spec: string, b: string)
    requires forall i :: 0 <= i < |n| ==> PlainNameChar(n[i])
    requires '{' !in spec && '}' !in spec
    ensures ParseField(n + "!" + [c] + ":" + spec + "}" + b) == Ok(Replacement(n, Some(c), spec, b))
  {
    var s := n + "!" + [c] + ":" + spec + "}" + b;
    var e := |n| + 3 + |spec|;
    assert NameEnd(s, 0) == Ok(|n|) by {
      NameEndSkips(s, 0, |n|);
      assert s[|n|] == '!';
    }
    assert s[|n| + 1] == c && s[|n| + 2] == ':';
    assert SpecEnd(s, |n| + 3, 1) == Ok(e) by {
      assert forall k :: |n| + 3 <= k < e ==> s[k] == spec[k - |n| - 3];
      SpecEndSkips(s, |n| + 3, e, 1);
      assert s[e] == '}';
    }
    assert s[..|n|] == n && s[|n| + 3..e] == spec && s[e + 1..] == b;
  }

  /** How `n[inner]}b` is laid out, character by character. */
  lemma IndexedLayout(n: string, inner: string, b: string)
    ensures var s := n + "[" + inner + "]}" + b; var p := |n| + 1 + |inner|;
      && |s| == p + 2 + |b| && s[..|n|] == n
      && s[|n|] == '[' && s[|n| + 1..] == inner + [']'] + ("}" + b)
      && s[p] == ']' && s[p + 1] == '}'
      && s[..p + 1] == n + "[" + inner + "]" && s[p + 2..] == b
  {
    var s := n + "[" + inner + "]}" + b;
    assert s == n + ("[" + (inner + ("]}" + b)));
    assert "]}" + b == [']'] + ("}" + b);
  }

  /** The name scan steps over an index `[inner]` to its `]`. */
  lemma NameEndSkipsIndex(s: string, i: nat, inner: string, rest: string)
    requires i < |s| && s[i] == '[' && ']' !in inner
    requires s[i + 1..] == inner + [']'] + rest
    ensures NameEnd(s, i) == NameEnd(s, i + 1 + |inner|)
  {
    IndexOfAfter(inner, ']', rest);
  }

  /** A name of plain characters followed by an index and `}` ends at that
      `}`. */
  lemma NameEndIndexed(s: string, m: nat, inner: string, rest: string)
    requires m + 2 + |inner| < |s| && ']' !in inner
    requires forall k :: 0 <= k < m ==> PlainNameChar(s[k])
    requires s[m] == '[' && s[m + 1..] == inner + [']'] + rest
    requires s[m + 1 + |inner|] == ']' && s[m + 2 + |inner|] == '}'
    ensures NameEnd(s, 0) == Ok(m + 2 + |inner|)
  {
    var q := m + 1 + |inner|;
    NameEndSkips(s, 0, m);
    NameEndSkipsIndex(s, m, inner, rest);
    assert NameEnd(s, q) == NameEnd(s, q + 1) by {
      assert PlainNameChar(s[q]);
    }
  }

  /** `n[inner]}`: the index is part of the name, whatever braces it holds. */
  lemma ParseIndexedField(n: string, inner: string, b: string)
    requires forall i :: 0 <= i < |n| ==> PlainNameChar(n[i])
    requires ']' !in inner
    ensures ParseField(n + "[" + inner + "]}" + b) == Ok(Replacement(n + "[" + inner + "]", None, "", b))
  {
    var s := n + "[" + inner + "]}" + b;
    IndexedLayout(n, inner, b);
    assert NameEnd(s, 0) == Ok(|n| + 2 + |inner|) by {
      assert forall k :: 0 <= k < |n| ==> s[k] == s[..|n|][k];
      NameEndIndexed(s, |n|, inner, "}" + b);
    }
  }

  /** `n:{w}}`: a spec holding one nested field. */
  lemma ParseNestedSpecField(n: string, w: string, b: string)
    requires forall i :: 0 <= i < |n| ==> PlainNameChar(n[i])
    requires '{' !in w && '}' !in w
    ensures ParseField(n + ":{" + w + "}}" + b) == Ok(Replacement(n, None, "{" + w + "}", b))
  {
    var s := n + ":{" + w + "}}" + b;
    var p := |n| + 2 + |w|;
    assert NameEnd(s, 0) == Ok(|n|) by {
      NameEndSkips(s, 0, |n|);
      assert s[|n|] == ':';
    }
    assert SpecEnd(s, |n| + 1, 1) == Ok(p + 1) by {
      assert s[|n| + 1] == '{';
      assert forall k :: |n| + 2 <= k < p ==> s[k] == w[k - |n| - 2];
      SpecEndSkips(s, |n| + 2, p, 2);
      assert s[p] == '}' && s[p + 1] == '}';
    }
    assert s[..|n|] == n && s[|n| + 1..p + 1] == "{" + w + "}" && s[p + 2..] == b;
  }

  /** The conversion must be one character followed by `}` or `:`. */
  lemma ParseConversionSyntax(n: string, c: char, d: char, b: string)
    requires forall i :: 0 <= i < |n| ==> PlainNameChar(n[i])
    requires d != '}' && d != ':'
    ensures ParseField(n + "!" + [c] + [d] + b) == Err(FormatError("expected ':' after conversion specifier"))
    ensures ParseField(n + "!") == Err(FormatError("end of string while looking for conversion specifier"))
    ensures ParseField(n + "!" + [c]) == Err(FormatError(UnmatchedSpec))
  {
    var s1 := n + "!" + [c] + [d] + b;
    assert NameEnd(s1, 0) == Ok(|n|) by {
      NameEndSkips(s1, 0, |n|);
      assert s1[|n|] == '!';
    }
    assert s1[|n| + 2] == d;
    var s2 := n + "!";
    assert NameEnd(s2, 0) == Ok(|n|) by {
      NameEndSkips(s2, 0, |n|);
    }
    var s3 := n + "!" + [c];
    assert NameEnd(s3, 0) == Ok(|n|) by {
      NameEndSkips(s3, 0, |n|);
      assert s3[|n|] == '!';
    }
  }

  /** An unclosed `[` in a field name runs to the end of the template. */
  lemma ParseOpenIndex(n: string, rest: string)
    requires forall i :: 0 <= i < |n| ==> PlainNameChar(n[i])
    requires ']' !in rest
    ensures ParseField(n + "[" + rest) == Err(FormatError(NoClose))
  {
    var s := n + "[" + rest;
    assert NameEnd(s, 0) == Err(FormatError(NoClose)) by {
      NameEndSkips(s, 0, |n|);
      assert s[|n|] == '[' && s[|n| + 1..] == rest;
    }
  }

  /** `{TABLE_XPATH}`, with an `s` conversion or an empty spec or neither,
      yields the locator. */
  lemma SlotFieldValue(f: Replacement, loc: string)
    requires f.name == Field && (f.conversion.None? || f.conversion == Some('s')) && f.spec == ""
    ensures FieldValue(f, loc) == Ok(loc)
  {
    FieldArgName();
  }

  /** An unknown conversion on TABLE_XPATH is rejected. */
  lemma ConversionFieldValue(c: char, after: string, loc: string)
    requires !IsConversion(c)
    ensures FieldValue(Replacement(Field, Some(c), "", after), loc) == Err(FormatError(ConversionMessage(c)))
  {
    FieldArgName();
  }

  /** A field whose argument name is a keyword other than TABLE_XPATH fails
      with a KeyError for that keyword. */
  lemma KeywordFieldValue(f: Replacement, n: string, loc: string)
    requires ArgName(f.name) == n && |n| > 0 && !IsDigit(n[0]) && n != Field
    ensures FieldValue(f, loc) == Err(KeyError(n))
  {
    assert LeadingDigits(n) == "";
  }

  /** Regrouping a concatenation around a field's opening brace. */
  lemma OpenRegroup(a: string, s: string, x: string)
    ensures a + "{" + s + x == a + "{" + (s + x)
  {
  }

  /** The other spellings of the slot, regrouped around the opening brace. */
  lemma SlotSpellings(a: string, rest: string)
    ensures a + "{" + Field + "!s}" + rest == a + "{" + (Field + "!" + ['s'] + "}" + rest)
    ensures a + "{" + Field + ":}" + rest == a + "{" + (Field + ":" + "" + "}" + rest)
    ensures a + "{" + Field + "!s:}" + rest == a + "{" + (Field + "!" + ['s'] + ":" + "" + "}" + rest)
  {
  }

  // ---------------------------------------------------------------------
  // Properties of Format

  /** Brace-free text is copied through, whatever follows it. */
  lemma {:induction false} FormatAfterText(a: string, s: string, loc: string)
    requires '{' !in a && '}' !in a
    ensures Format(a + s, loc) == PrefixWith(a, Format(s, loc))
    decreases |a|
  {
    if |a| == 0 {
      assert a + s == s;
      PrefixWithNothing(Format(s, loc));
    } else {
      var t := a + s;
      assert t[0] == a[0] && t[1..] == a[1..] + s;
      FormatAfterText(a[1..], s, loc);
      PrefixWithTwice([a[0]], a[1..], Format(s, loc));
      assert [a[0]] + a[1..] == a;
    }
  }

  /** After brace-free text, the first replacement field decides how
      formatting goes on: its `{` hands over to FormatField. */
  lemma FormatFirstField(a: string, s: string, loc: string)
    requires '{' !in a && '}' !in a && |s| > 0 && s[0] != '{'
    ensures Format(a + "{" + s, loc) == PrefixWith(a, FormatField(s, loc))
  {
    assert a + "{" + s == a + ("{" + s);
    FormatAfterText(a, "{" + s, loc);
    assert ("{" + s)[1..] == s;
  }

  /** A field that parses and yields `v` is replaced by `v`. */
  lemma FormatFieldValue(a: string, s: string, f: Replacement, v: string, loc: string)
    requires '{' !in a && '}' !in a && |s| > 0 && s[0] != '{'
    requires ParseField(s) == Ok(f) && FieldValue(f, loc) == Ok(v)
    ensures Format(a + "{" + s, loc) == PrefixWith(a + v, Format(f.after, loc))
  {
    FormatFirstField(a, s, loc);
    PrefixWithTwice(a, v, Format(f.after, loc));
  }

  /** A field that does not parse is the result. */
  lemma FormatFieldMalformed(a: string, s: string, e: Error, loc: string)
    requires '{' !in a && '}' !in a && |s| > 0 && s[0] != '{'
    requires ParseField(s) == Err(e)
    ensures Format(a + "{" + s, loc) == Err(e)
  {
    FormatFirstField(a, s, loc);
  }

  /** A field that parses but yields no value is the result. */
  lemma FormatFieldRejected(a: string, s: string, f: Replacement, e: Error, loc: string)
    requires '{' !in a && '}' !in a && |s| > 0 && s[0] != '{'
    requires ParseField(s) == Ok(f) && FieldValue(f, loc) == Err(e)
    ensures Format(a + "{" + s, loc) == Err(e)
  {
    FormatFirstField(a, s, loc);
  }

  /** Formatting consumes one spelled piece and emits it filled. */
  lemma FormatPiece(p: Piece, rest: string, loc: string)
    ensures Format(Spelling(p) + rest, loc) == PrefixWith(Filled(p, loc), Format(rest, loc))
  {
    var t := Spelling(p) + rest;
    match p
    case Slot =>
      assert t == "" + "{" + (Field + "}" + rest);
      assert "" + loc == loc;
      FieldIsPlainName();
      ParsePlainField(Field, rest);
      SlotFieldValue(Replacement(Field, None, "", rest), loc);
      FormatFieldValue("", Field + "}" + rest, Replacement(Field, None, "", rest), loc, loc);
    case Lit(c) =>
      if c == '{' || c == '}' {
        assert t[2..] == rest;
      } else {
        assert t[1..] == rest;
      }
  }

  /** Formatting a template replaces every placeholder by the locator and
      keeps every other character. */
  lemma {:induction false} FormatTemplate(ps: seq<Piece>, loc: string)
    ensures Format(Template(ps), loc) == Ok(Render(ps, loc))
    decreases |ps|
  {
    if |ps| > 0 {
      FormatTemplate(ps[1..], loc);
      FormatPiece(ps[0], Template(ps[1..]), loc);
    }
  }

  /** `{TABLE_XPATH!s}`, `{TABLE_XPATH:}` and `{TABLE_XPATH!s:}` are other
      spellings of the slot: each puts the locator in. */
  lemma FormatSlotVariants(a: string, rest: string, loc: string)
    requires '{' !in a && '}' !in a
    ensures Format(a + "{" + Field + "!s}" + rest, loc) == PrefixWith(a + loc, Format(rest, loc))
    ensures Format(a + "{" + Field + ":}" + rest, loc) == PrefixWith(a + loc, Format(rest, loc))
    ensures Format(a + "{" + Field + "!s:}" + rest, loc) == PrefixWith(a + loc, Format(rest, loc))
  {
    var s1 := Field + "!" + ['s'] + "}" + rest;
    var s2 := Field + ":" + "" + "}" + rest;
    var s3 := Field + "!" + ['s'] + ":" + "" + "}" + rest;
    SlotSpellings(a, rest);
    FieldIsPlainName();
    assert ParseField(s1) == Ok(Replacement(Field, Some('s'), "", rest)) by {
      ParseConvertedField(Field, 's', rest);
    }
    SlotFieldValue(Replacement(Field, Some('s'), "", rest), loc);
    FormatFieldValue(a, s1, Replacement(Field, Some('s'), "", rest), loc, loc);
    assert ParseField(s2) == Ok(Replacement(Field, None, "", rest)) by {
      ParseSpecField(Field, "", rest);
    }
    SlotFieldValue(Replacement(Field, None, "", rest), loc);
    FormatFieldValue(a, s2, Replacement(Field, None, "", rest), loc, loc);
    assert ParseField(s3) == Ok(Replacement(Field, Some('s'), "", rest)) by {
      ParseConvertedSpecField(Field, 's', "", rest);
    }
    SlotFieldValue(Replacement(Field, Some('s'), "", rest), loc);
    FormatFieldValue(a, s3, Replacement(Field, Some('s'), "", rest), loc, loc);
  }

  /** A conversion other than `s`, `r` or `a` on TABLE_XPATH is rejected
      with Python's message for it. */
  lemma FormatRejectsConversion(a: string, c: char, rest: string, loc: string)
    requires '{' !in a && '}' !in a && !IsConversion(c)
    ensures Format(a + "{" + Field + "!" + [c] + "}" + rest, loc) == Err(FormatError(ConversionMessage(c)))
  {
    FieldIsPlainName();
    ConversionFieldValue(c, rest, loc);
    FormatConvertedField(a, Field, c, rest, loc);
  }

  /** A converted field `{n!c}` without spec fails as its lookup does. */
  lemma FormatConvertedField(a: string, n: string, c: char, rest: string, loc: string)
    requires '{' !in a && '}' !in a && |n| > 0
    requires forall i :: 0 <= i < |n| ==> PlainNameChar(n[i])
    requires FieldValue(Replacement(n, Some(c), "", rest), loc).Err?
    ensures Format(a + "{" + n + "!" + [c] + "}" + rest, loc) ==
            Err(FieldValue(Replacement(n, Some(c), "", rest), loc).error)
  {
    var s := n + "!" + [c] + "}" + rest;
    OpenRegroup(a, n, "!");
    OpenRegroup(a, n + "!", [c]);
    OpenRegroup(a, n + "!" + [c], "}");
    OpenRegroup(a, n + "!" + [c] + "}", rest);
    ParseConvertedField(n, c, rest);
    FormatFieldRejected(a, s, Replacement(n, Some(c), "", rest), FieldValue(Replacement(n, Some(c), "", rest), loc).error, loc);
  }

  /** A field naming a keyword other than TABLE_XPATH is a KeyError carrying
      that name, unless the name starts with more digits than a Py_ssize_t
      holds. */
  lemma FormatRejectsOtherField(a: string, f: string, b: string, loc: string)
    requires '{' !in a && '}' !in a
    requires forall i :: 0 <= i < |f| ==> PlainNameChar(f[i]) && !EndsArgName(f[i])
    requires f != Field && !AllDigits(f)
    ensures Format(a + "{" + f + "}" + b, loc) ==
            Err(if DigitsValue(LeadingDigits(f)) > SsizeMax then FormatError(TooManyDigits) else KeyError(f))
  {
    var s := f + "}" + b;
    OpenRegroup(a, f, "}");
    OpenRegroup(a, f + "}", b);
    ParsePlainField(f, b);
    ArgNameStops(f, "");
    assert f + "" == f;
    FormatFieldRejected(a, s, Replacement(f, None, "", b), if DigitsValue(LeadingDigits(f)) > SsizeMax then FormatError(TooManyDigits) else KeyError(f), loc);
  }

  /** An empty or numeric field (`{}`, `{0}`) asks for a positional argument;
      none is given, so it is an IndexError for that index (0 for `{}`),
      unless the number does not fit a Py_ssize_t. */
  lemma FormatRejectsPositional(a: string, f: string, b: string, loc: string)
    requires '{' !in a && '}' !in a && AllDigits(f)
    ensures Format(a + "{" + f + "}" + b, loc) ==
            Err(if DigitsValue(f) > SsizeMax then FormatError(TooManyDigits)
                else IndexError(IndexMessage(DigitsValue(f))))
  {
    var s := f + "}" + b;
    OpenRegroup(a, f, "}");
    OpenRegroup(a, f + "}", b);
    assert forall i :: 0 <= i < |f| ==> IsDigit(f[i]);
    ParsePlainField(f, b);
    ArgNameStops(f, "");
    assert f + "" == f;
    assert LeadingDigits(f) == f;
    FormatFieldRejected(a, s, Replacement(f, None, "", b), if DigitsValue(f) > SsizeMax then FormatError(TooManyDigits)
                           else IndexError(IndexMessage(DigitsValue(f))), loc);
  }

  /** An index in a field name is skipped up to its `]`, braces included, so
      a field like `{a[{b}]}` is a KeyError for `a`. */
  lemma FormatSkipsIndex(a: string, n: string, inner: string, b: string, loc: string)
    requires '{' !in a && '}' !in a && ']' !in inner
    requires forall i :: 0 <= i < |n| ==> PlainNameChar(n[i]) && !EndsArgName(n[i])
    requires |n| > 0 && !IsDigit(n[0]) && n != Field
    ensures Format(a + "{" + n + "[" + inner + "]}" + b, loc) == Err(KeyError(n))
  {
    var s := n + "[" + inner + "]}" + b;
    OpenRegroup(a, n, "[");
    OpenRegroup(a, n + "[", inner);
    OpenRegroup(a, n + "[" + inner, "]}");
    OpenRegroup(a, n + "[" + inner + "]}", b);
    ParseIndexedField(n, inner, b);
    var name := n + "[" + inner + "]";
    assert name == n + ("[" + inner + "]");
    ArgNameStops(n, "[" + inner + "]");
    KeywordFieldValue(Replacement(name, None, "", b), n, loc);
    FormatFieldRejected(a, s, Replacement(name, None, "", b), KeyError(n), loc);
  }

  /** A `[` in a field name that is never closed runs to the end of the
      template. */
  lemma FormatRejectsOpenIndex(a: string, n: string, rest: string, loc: string)
    requires '{' !in a && '}' !in a && ']' !in rest
    requires forall i :: 0 <= i < |n| ==> PlainNameChar(n[i])
    ensures Format(a + "{" + n + "[" + rest, loc) == Err(FormatError(NoClose))
  {
    var s := n + "[" + rest;
    OpenRegroup(a, n, "[");
    OpenRegroup(a, n + "[", rest);
    ParseOpenIndex(n, rest);
    FormatFieldMalformed(a, s, FormatError(NoClose), loc);
  }

  /** After `!` comes exactly one conversion character and then `}` or `:`,
      as in `{a!rx}`; a template that ends right after the `!`, or right
      after the conversion character, is malformed too. */
  lemma FormatRejectsConversionSyntax(a: string, n: string, c: char, d: char, b: string, loc: string)
    requires '{' !in a && '}' !in a && d != '}' && d != ':'
    requires forall i :: 0 <= i < |n| ==> PlainNameChar(n[i])
    ensures Format(a + "{" + n + "!" + [c] + [d] + b, loc) ==
            Err(FormatError("expected ':' after conversion specifier"))
    ensures Format(a + "{" + n + "!", loc) ==
            Err(FormatError("end of string while looking for conversion specifier"))
    ensures Format(a + "{" + n + "!" + [c], loc) == Err(FormatError(UnmatchedSpec))
  {
    ParseConversionSyntax(n, c, d, b);
    var s1 := n + "!" + [c] + [d] + b;
    OpenRegroup(a, n, "!");
    OpenRegroup(a, n + "!", [c]);
    OpenRegroup(a, n + "!" + [c], [d]);
    OpenRegroup(a, n + "!" + [c] + [d], b);
    FormatFieldMalformed(a, s1, FormatError("expected ':' after conversion specifier"), loc);
    var s2 := n + "!";
    OpenRegroup(a, n, "!");
    FormatFieldMalformed(a, s2, FormatError("end of string while looking for conversion specifier"), loc);
    var s3 := n + "!" + [c];
    OpenRegroup(a, n, "!");
    OpenRegroup(a, n + "!", [c]);
    FormatFieldMalformed(a, s3, FormatError(UnmatchedSpec), loc);
  }

  /** The argument is looked up before a nested field in the spec is
      formatted: `{a:{w}}` is a KeyError for `a`, not for `w`. */
  lemma FormatLooksUpBeforeSpec(a: string, n: string, w: string, b: string, loc: string)
    requires '{' !in a && '}' !in a && '{' !in w && '}' !in w
    requires forall i :: 0 <= i < |n| ==> PlainNameChar(n[i]) && !EndsArgName(n[i])
    requires |n| > 0 && !IsDigit(n[0]) && n != Field
    ensures Format(a + "{" + n + ":{" + w + "}}" + b, loc) == Err(KeyError(n))
  {
    var s := n + ":{" + w + "}}" + b;
    OpenRegroup(a, n, ":{");
    OpenRegroup(a, n + ":{", w);
    OpenRegroup(a, n + ":{" + w, "}}");
    OpenRegroup(a, n + ":{" + w + "}}", b);
    ParseNestedSpecField(n, w, b);
    ArgNameStops(n, "");
    assert n + "" == n;
    KeywordFieldValue(Replacement(n, None, "{" + w + "}", b), n, loc);
    FormatFieldRejected(a, s, Replacement(n, None, "{" + w + "}", b), KeyError(n), loc);
  }

  /** A closing brace that is not doubled is rejected. */
  lemma {:induction false} FormatRejectsLoneClose(a: string, b: string, loc: string)
    requires '{' !in a && '}' !in a
    requires |b| == 0 || b[0] != '}'
    ensures Format(a + "}" + b, loc) == Err(FormatError("Single '}' encountered in format string"))
    decreases |a|
  {
    var t := a + "}" + b;
    if |a| > 0 {
      assert t[1..] == a[1..] + "}" + b;
      FormatRejectsLoneClose(a[1..], b, loc);
    }
  }
}
