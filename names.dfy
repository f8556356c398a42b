/** Name canonicalisation (utils.py): `replace_symbols_with`, `owl_name` and
    `name_to_snake_case`. Strings are sequences of characters; case mapping is the ASCII one.
    `owl_name` transliterates to ASCII before it changes case, so there the ASCII mapping is
    Python's; `name_to_snake_case` does not, so on other letters the two differ. */
module Names {

  /** A character of the class `[A-Za-z0-9_]`, the characters `PATTERN_SYMBOLS` leaves alone. */
  predicate IsWordChar(ch: char) {
    ('A' <= ch <= 'Z') || ('a' <= ch <= 'z') || ('0' <= ch <= '9') || ch == '_'
  }

  /** A character an instance name may hold: `[a-z0-9_]`. */
  predicate IsLowerWordChar(ch: char) {
    ('a' <= ch <= 'z') || ('0' <= ch <= '9') || ch == '_'
  }

  predicate IsAscii(s: string) {
    forall i :: 0 <= i < |s| ==> s[i] < 128 as char
  }

  /** The ASCII characters Python's `str.strip` removes: space, tab to carriage return, and the
      file, group, record and unit separators. */
  predicate IsSpace(ch: char) {
    ch == ' ' || ('\t' <= ch <= '\r') || ('\U{1C}' <= ch <= '\U{1F}')
  }

  /** A model of `unidecode.unidecode`: it leaves ASCII text alone and yields ASCII. */
  ghost predicate IsTransliteration(f: string -> string) {
    (forall s :: IsAscii(s) ==> f(s) == s) && (forall s :: IsAscii(f(s)))
  }

  function LowerChar(ch: char): char {
    if 'A' <= ch <= 'Z' then (ch as int + 32) as char else ch
  }

  function UpperChar(ch: char): char {
    if 'a' <= ch <= 'z' then (ch as int - 32) as char else ch
  }

  /** `str.lower` on ASCII text. */
  function Lower(s: string): (r: string)
    ensures |r| == |s|
    ensures forall i :: 0 <= i < |s| ==> r[i] == LowerChar(s[i])
    ensures forall i :: 0 <= i < |r| ==> !('A' <= r[i] <= 'Z')
    ensures forall i :: 0 <= i < |s| && !('A' <= s[i] <= 'Z') ==> r[i] == s[i]
  {
    seq(|s|, i requires 0 <= i < |s| => LowerChar(s[i]))
  }

  /** `str.capitalize` on ASCII text: first character upper case, the rest lower case. */
  function Capitalize(s: string): (r: string)
    ensures |r| == |s|
    ensures s != [] ==> r[0] == UpperChar(s[0])
    ensures forall i :: 1 <= i < |s| ==> r[i] == LowerChar(s[i])
    ensures s != [] ==> !('a' <= r[0] <= 'z')
    ensures forall i :: 1 <= i < |r| ==> !('A' <= r[i] <= 'Z')
  {
    if s == [] then [] else [UpperChar(s[0])] + Lower(s[1..])
  }

  /** `r` is `s[i..j]`, and everything of `s` before `i` and from `j` on is white space. */
  predicate Trims(s: string, r: string, i: nat, j: nat) {
    && i <= j <= |s| && r == s[i..j]
    && (forall k :: 0 <= k < i ==> IsSpace(s[k]))
    && (forall k :: j <= k < |s| ==> IsSpace(s[k]))
  }

  /** `str.strip()`: drops leading and trailing white space, and nothing else. */
  function Strip(s: string): (r: string)
    ensures |r| <= |s|
    ensures r != [] ==> !IsSpace(r[0]) && !IsSpace(r[|r| - 1])
    ensures exists i, j :: Trims(s, r, i, j)
  {
    if s != [] && IsSpace(s[0]) then
      var r := Strip(s[1..]);
      var i, j :| Trims(s[1..], r, i, j);
      TrimsAfterSpace(s, r, i, j);
      r
    else if s != [] && IsSpace(s[|s| - 1]) then
      var r := Strip(s[..|s| - 1]);
      var i, j :| Trims(s[..|s| - 1], r, i, j);
      TrimsBeforeSpace(s, r, i, j);
      r
    else
      assert Trims(s, s, 0, |s|);
      s
  }

  lemma TrimsAfterSpace(s: string, r: string, i: nat, j: nat)
    requires s != [] && IsSpace(s[0]) && Trims(s[1..], r, i, j)
    ensures Trims(s, r, i + 1, j + 1)
  {
    forall k | 1 <= k < |s| ensures s[k] == s[1..][k - 1] {
    }
  }

  lemma TrimsBeforeSpace(s: string, r: string, i: nat, j: nat)
    requires s != [] && IsSpace(s[|s| - 1]) && Trims(s[..|s| - 1], r, i, j)
    ensures Trims(s, r, i, j)
  {
    forall k | 0 <= k < |s| - 1 ensures s[k] == s[..|s| - 1][k] {
    }
  }

  /** `PATTERN_SYMBOLS.sub(replacement, name)`: every character outside `[A-Za-z0-9_]`
      becomes `replacement`. */
  function Substitute(s: string, replacement: char): (r: string)
    requires replacement != '\\'
    ensures |r| == |s|
    ensures forall i :: 0 <= i < |s| ==> r[i] == if IsWordChar(s[i]) then s[i] else replacement
  {
    seq(|s|, i requires 0 <= i < |s| => if IsWordChar(s[i]) then s[i] else replacement)
  }

  /** The `while replaced.endswith(replacement)` loop: drops the trailing run of
      `replacement`, and nothing else. */
  function StripTrailing(s: string, c: char): (r: string)
    ensures |r| <= |s| && r == s[..|r|]
    ensures r == [] || r[|r| - 1] != c
    ensures forall k :: |r| <= k < |s| ==> s[k] == c
  {
    if s != [] && s[|s| - 1] == c then StripTrailing(s[..|s| - 1], c) else s
  }

  /** The value `replace_symbols_with(name, [replacement])` returns. */
  function SymbolsReplaced(name: string, replacement: char): string
    requires replacement != '\\'
  {
    StripTrailing(Substitute(name, replacement), replacement)
  }

  /** `replace_symbols_with`: substitutes the symbols, then trims the replacement character
      from the end one character at a time. The replacement is one character: with an empty
      one the trimming loop would never end. */
  method ReplaceSymbolsWith(name: string, replacement: char) returns (replaced: string)
    requires replacement != '\\'
    ensures replaced == SymbolsReplaced(name, replacement)
    ensures |replaced| <= |name|
    ensures forall i :: 0 <= i < |replaced| ==> IsWordChar(replaced[i]) || replaced[i] == replacement
    ensures replaced == [] || replaced[|replaced| - 1] != replacement
  {
    replaced := Substitute(name, replacement);
    ghost var full := replaced;
    while replaced != [] && replaced[|replaced| - 1] == replacement
      invariant |replaced| <= |full| && replaced == full[..|replaced|]
      invariant StripTrailing(replaced, replacement) == StripTrailing(full, replacement)
      decreases |replaced|
    {
      replaced := replaced[..|replaced| - 1];
    }
  }

  /** `owl_name`: transliterate, strip, replace symbols with `_`, lower-case, and for a class
      name capitalise. An instance name holds only `[a-z0-9_]`; a class name holds word
      characters, lower case after the first; neither ends with `_`. */
  function OwlName(unidecode: string -> string, name: string, instance: bool): (r: string)
    ensures instance ==> IsInstanceName(r)
    ensures !instance ==> IsClassName(r)
  {
    var n := Lower(SymbolsReplaced(Strip(unidecode(name)), '_'));
    LowerOfReplaced(Strip(unidecode(name)));
    if instance then n
    else
      CapitalizeInstanceName(n);
      Capitalize(n)
  }

  /** `name_to_snake_case`: spaces become `_`, every other character is lower-cased. The
      result has the input's length, no space and no ASCII capital. */
  function SnakeCase(name: string): (r: string)
    ensures |r| == |name|
    ensures forall i :: 0 <= i < |name| ==> r[i] == if name[i] == ' ' then '_' else LowerChar(name[i])
    ensures forall i :: 0 <= i < |r| ==> r[i] != ' ' && !('A' <= r[i] <= 'Z')
  {
    Lower(seq(|name|, i requires 0 <= i < |name| => if name[i] == ' ' then '_' else name[i]))
  }

  // ---------------------------------------------------------------------------------------
  // Properties of the canonical names

  /** The shape of an instance name: only `[a-z0-9_]`, and no `_` at the end. */
  predicate IsInstanceName(s: string) {
    (forall i :: 0 <= i < |s| ==> IsLowerWordChar(s[i])) && (s == [] || s[|s| - 1] != '_')
  }

  /** The shape of a class name: an instance name with its first character upper-cased. */
  predicate IsClassName(s: string) {
    (forall i :: 0 <= i < |s| ==> IsWordChar(s[i]))
    && (forall i :: 1 <= i < |s| ==> IsLowerWordChar(s[i]))
    && (s == [] || s[|s| - 1] != '_')
  }

  lemma LowerCharOfWord(ch: char)
    requires IsWordChar(ch)
    ensures IsLowerWordChar(LowerChar(ch)) && (LowerChar(ch) == '_' <==> ch == '_')
  {
  }

  lemma UpperCharOfLowerWord(ch: char)
    requires IsLowerWordChar(ch)
    ensures IsWordChar(UpperChar(ch)) && LowerChar(UpperChar(ch)) == ch
    ensures UpperChar(ch) == '_' <==> ch == '_'
  {
  }

  lemma LowerOfWords(t: string)
    requires forall i :: 0 <= i < |t| ==> IsWordChar(t[i])
    requires t == [] || t[|t| - 1] != '_'
    ensures IsInstanceName(Lower(t))
  {
    forall i | 0 <= i < |t| ensures IsLowerWordChar(Lower(t)[i]) {
      LowerCharOfWord(t[i]);
    }
    if t != [] {
      LowerCharOfWord(t[|t| - 1]);
    }
  }

  lemma LowerOfReplaced(s: string)
    ensures IsInstanceName(Lower(SymbolsReplaced(s, '_')))
  {
    var t := SymbolsReplaced(s, '_');
    var u := Substitute(s, '_');
    assert t == u[..|t|];
    forall i | 0 <= i < |t| ensures IsWordChar(t[i]) {
      assert t[i] == u[i];
    }
    LowerOfWords(t);
  }

  /** Capitalising an instance name gives a class name that lower-cases back to it. */
  lemma CapitalizeInstanceName(n: string)
    requires IsInstanceName(n)
    ensures IsClassName(Capitalize(n)) && Lower(Capitalize(n)) == n
  {
    if n != [] {
      var r := Capitalize(n);
      UpperCharOfLowerWord(n[0]);
      assert r[0] == UpperChar(n[0]);
      forall i | 1 <= i < |r| ensures r[i] == LowerChar(n[i]) == n[i] {
        assert r[i] == Lower(n[1..])[i - 1];
      }
      forall i | 0 <= i < |r| ensures LowerChar(r[i]) == n[i] {
      }
    }
  }

  /** A string already made of word characters and ending in none of `_` comes through the
      first four steps of `owl_name` unchanged. */
  lemma {:induction false} WordsArePreserved(unidecode: string -> string, s: string)
    requires IsTransliteration(unidecode)
    requires forall i :: 0 <= i < |s| ==> IsWordChar(s[i])
    requires s == [] || s[|s| - 1] != '_'
    ensures SymbolsReplaced(Strip(unidecode(s)), '_') == s
  {
    assert IsAscii(s);
    assert unidecode(s) == s;
    if s != [] {
      assert !IsSpace(s[0]) && !IsSpace(s[|s| - 1]);
    }
    assert Strip(s) == s;
    assert Substitute(s, '_') == s;
  }

  /** On a string of word characters not ending in `_`, `owl_name` only changes case. */
  lemma OwlNameOfWords(unidecode: string -> string, w: string, instance: bool)
    requires IsTransliteration(unidecode)
    requires forall i :: 0 <= i < |w| ==> IsWordChar(w[i])
    requires w == [] || w[|w| - 1] != '_'
    ensures OwlName(unidecode, w, instance) == if instance then Lower(w) else Capitalize(Lower(w))
  {
    WordsArePreserved(unidecode, w);
  }

  /** `owl_name` is idempotent in both modes. */
  lemma OwlNameIdempotent(unidecode: string -> string, name: string, instance: bool)
    requires IsTransliteration(unidecode)
    ensures OwlName(unidecode, OwlName(unidecode, name, instance), instance)
            == OwlName(unidecode, name, instance)
  {
    var n := Lower(SymbolsReplaced(Strip(unidecode(name)), '_'));
    LowerOfReplaced(Strip(unidecode(name)));
    if instance {
      assert OwlName(unidecode, name, true) == n;
      InstanceNameStable(unidecode, n);
    } else {
      assert OwlName(unidecode, name, false) == Capitalize(n);
      ClassNameStable(unidecode, n);
    }
  }

  lemma InstanceNameStable(unidecode: string -> string, n: string)
    requires IsTransliteration(unidecode) && IsInstanceName(n)
    ensures OwlName(unidecode, n, true) == n
  {
    OwlNameOfWords(unidecode, n, true);
    assert Lower(n) == n;
  }

  lemma ClassNameStable(unidecode: string -> string, n: string)
    requires IsTransliteration(unidecode) && IsInstanceName(n)
    ensures OwlName(unidecode, Capitalize(n), false) == Capitalize(n)
  {
    CapitalizeInstanceName(n);
    OwlNameOfWords(unidecode, Capitalize(n), false);
  }

  /** `name_to_snake_case` is idempotent. */
  lemma SnakeCaseIdempotent(name: string)
    ensures SnakeCase(SnakeCase(name)) == SnakeCase(name)
  {
  }
}
