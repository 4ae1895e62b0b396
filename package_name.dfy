/** `validate_package_name` (craftr/core/manifest.py): the name check that
    `Manifest.parse` applies to a manifest's `name`. */
module PackageName {
  import opened Base
  import opened Json

  /** The two ways `validate_package_name` raises. A value that is not a
      `str` reaches a `TypeError` whose message calls the undefined `tn`,
      so what propagates is a `NameError`. */
  datatype NameFault = UndefinedTnNameError | InvalidName(name: string)

  /** The first class of the pattern, `[A-z0-9]`. The range `A-z` runs from
      U+0041 to U+007A and so also holds `[`, `\`, `]`, `^`, `_` and the
      backquote. */
  predicate LeadChar(c: char) {
    'A' <= c <= 'z' || '0' <= c <= '9'
  }

  /** The repeated class of the pattern, `[A-z0-9\.\-\_]`. */
  predicate TailChar(c: char) {
    LeadChar(c) || c == '.' || c == '-' || c == '_'
  }

  /** Whether `[A-z0-9\.\-\_]*$` matches `s[i..]`: the repetition consumes
      class characters, then `$` matches at the end or just before a final
      newline. A newline is not in the class, so no backtracking is needed. */
  function TailMatches(s: string, i: nat): bool
    requires i <= |s|
    decreases |s| - i
  {
    if i == |s| then true
    else if i == |s| - 1 && s[i] == '\n' then true
    else TailChar(s[i]) && TailMatches(s, i + 1)
  }

  /** `re.match(r'^[A-z0-9][A-z0-9\.\-\_]*$', s)` succeeds. */
  predicate PatternMatches(s: string) {
    |s| > 0 && LeadChar(s[0]) && TailMatches(s, 1)
  }

  /** `validate_package_name(name)`: `None` when it returns normally. */
  function Validate(name: Json): (r: Option<NameFault>)
    ensures r == None <==> name.JStr? && PatternMatches(name.s)
    ensures r.Some? && name.JStr? ==> r.value == InvalidName(name.s)
  {
    if !name.JStr? then Some(UndefinedTnNameError)
    else if PatternMatches(name.s) then None
    else Some(InvalidName(name.s))
  }

  /** A lead character followed by tail characters only. */
  predicate Word(s: string) {
    |s| > 0 && LeadChar(s[0]) && forall i :: 1 <= i < |s| ==> TailChar(s[i])
  }

  lemma {:induction false} TailMatchesChars(s: string, i: nat)
    requires i <= |s|
    ensures TailMatches(s, i) <==>
      (forall k :: i <= k < |s| ==> TailChar(s[k]))
      || (|s| > i && s[|s| - 1] == '\n' && forall k :: i <= k < |s| - 1 ==> TailChar(s[k]))
    decreases |s| - i
  {
    if i < |s| && !(i == |s| - 1 && s[i] == '\n') {
      TailMatchesChars(s, i + 1);
    }
  }

  /** The language the pattern accepts: a word, or a word and one final
      newline (`$` also matches before a trailing newline). */
  lemma PatternLanguage(s: string)
    ensures PatternMatches(s) <==> Word(s) || (|s| >= 2 && s[|s| - 1] == '\n' && Word(s[..|s| - 1]))
  {
    if |s| > 0 {
      TailMatchesChars(s, 1);
    }
  }

  /** The name grammar the docstring states: letters, digits, hyphens,
      underscores and periods, starting with a letter or a digit. */
  predicate Letter(c: char) {
    'A' <= c <= 'Z' || 'a' <= c <= 'z'
  }

  predicate DocumentedName(s: string) {
    |s| > 0 && (Letter(s[0]) || '0' <= s[0] <= '9')
    && forall i :: 1 <= i < |s| ==> Letter(s[i]) || '0' <= s[i] <= '9' || s[i] in "._-"
  }

  /** Every documented name passes the check; what passes beyond them are
      exactly the names holding one of `[ \ ] ^ _` or the backquote where
      the grammar forbids it, and names ending in one newline. */
  lemma DocumentedNamesPass(s: string)
    requires DocumentedName(s)
    ensures PatternMatches(s)
  {
    PatternLanguage(s);
  }

  lemma ExtraAcceptedNames(s: string)
    requires PatternMatches(s) && !DocumentedName(s)
    ensures s[|s| - 1] == '\n' || s[0] == '_'
      || exists i :: 0 <= i < |s| && s[i] in "[\\]^`"
  {
    PatternLanguage(s);
    if s[|s| - 1] != '\n' && s[0] != '_' {
      assert Word(s);
      if !(Letter(s[0]) || '0' <= s[0] <= '9') {
        assert s[0] in "[\\]^`";
      } else {
        var i :| 1 <= i < |s| && !(Letter(s[i]) || '0' <= s[i] <= '9' || s[i] in "._-");
        assert s[i] in "[\\]^`";
      }
    }
  }

  /** Conversely, a name built from the pattern's classes that holds one
      of `[ \ ] ^` or the backquote, starts with `_`, or ends in one newline
      passes the check but is outside the documented grammar. */
  lemma OddNamesPass(s: string)
    requires Word(s) || (|s| >= 2 && s[|s| - 1] == '\n' && Word(s[..|s| - 1]))
    requires s[|s| - 1] == '\n' || s[0] == '_' || exists i :: 0 <= i < |s| && s[i] in "[\\]^`"
    ensures PatternMatches(s) && !DocumentedName(s)
  {
    PatternLanguage(s);
    if s[|s| - 1] != '\n' && s[0] != '_' {
      var i :| 0 <= i < |s| && s[i] in "[\\]^`";
      assert !(Letter(s[i]) || '0' <= s[i] <= '9' || s[i] in "._-");
    }
  }

  /** The names the documentation calls out: "1bad name!" fails, while
      "valid.pkg-name_1", "a^b" and a name with a trailing newline pass. */
  lemma NameExamples()
    ensures Validate(JStr("1bad name!")) == Some(InvalidName("1bad name!"))
    ensures Validate(JStr("valid.pkg-name_1")) == None
    ensures Validate(JStr("a^b")) == None
    ensures Validate(JStr("pkg\n")) == None
    ensures Validate(JInt(1)) == Some(UndefinedTnNameError)
  {
    assert !TailChar(' ');
    assert !TailMatches("1bad name!", 4);
    DocumentedNamesPass("valid.pkg-name_1");
  }
}
