/** The scripts' conversion of identifiers to snake case, on ASCII characters. */
module SnakeCase {

  predicate IsUpper(c: char) {
    'A' <= c <= 'Z'
  }

  function LowerChar(c: char): (l: char)
    ensures !IsUpper(l) && (!IsUpper(c) ==> l == c)
    ensures l == '-' ==> c == '-'
  {
    if IsUpper(c) then (c as nat + 32) as char else c
  }

  function Lower(s: string): (l: string)
    ensures |l| == |s|
  {
    seq(|s|, i requires 0 <= i < |s| => LowerChar(s[i]))
  }

  function DashesToUnderscores(s: string): (u: string)
    ensures |u| == |s|
  {
    seq(|s|, i requires 0 <= i < |s| => if s[i] == '-' then '_' else s[i])
  }

  /** An underscore before every capital that is not the first character. */
  function SplitWords(s: string): string {
    if s == [] then []
    else
      var n := |s| - 1;
      SplitWords(s[..n]) + (if n > 0 && IsUpper(s[n]) then "_" else "") + [s[n]]
  }

  function ToSnake(name: string): string {
    var dashed := DashesToUnderscores(name);
    if '_' in dashed then Lower(dashed) else Lower(SplitWords(dashed))
  }

  /** Neither capitals nor dashes. */
  predicate IsSnake(s: string) {
    forall c | c in s :: !IsUpper(c) && c != '-'
  }

  lemma {:induction false} SplitWordsCharacters(s: string)
    ensures forall c | c in SplitWords(s) :: c in s || c == '_'
  {
    if s != [] {
      SplitWordsCharacters(s[..|s| - 1]);
    }
  }

  lemma {:induction false} SplitWordsOfSnake(s: string)
    requires IsSnake(s)
    ensures SplitWords(s) == s
  {
    if s != [] {
      var n := |s| - 1;
      SplitWordsOfSnake(s[..n]);
      assert s[n] in s;
      assert s == s[..n] + [s[n]];
    }
  }

  lemma LowerOfSnake(s: string)
    requires IsSnake(s)
    ensures Lower(s) == s && DashesToUnderscores(s) == s
  {
  }

  lemma LowerIsSnake(s: string)
    requires '-' !in s
    ensures IsSnake(Lower(s))
  {
  }

  lemma SnakeIsSnake(name: string)
    ensures IsSnake(ToSnake(name))
  {
    var dashed := DashesToUnderscores(name);
    assert '-' !in dashed;
    SplitWordsCharacters(dashed);
    LowerIsSnake(dashed);
    LowerIsSnake(SplitWords(dashed));
  }

  /** A name in snake case is left as it is. */
  lemma SnakeOfSnake(s: string)
    requires IsSnake(s)
    ensures ToSnake(s) == s
  {
    LowerOfSnake(s);
    SplitWordsOfSnake(s);
  }

  lemma SnakeIdempotent(name: string)
    ensures ToSnake(ToSnake(name)) == ToSnake(name)
  {
    SnakeIsSnake(name);
    SnakeOfSnake(ToSnake(name));
  }

  function Letters(s: string): string {
    if s == [] then []
    else
      var n := |s| - 1;
      Letters(s[..n]) + if s[n] == '_' then [] else [s[n]]
  }

  lemma LettersOfAppend(s: string, c: char)
    ensures Letters(s + [c]) == if c == '_' then Letters(s) else Letters(s) + [c]
  {
  }

  lemma {:induction false} LettersOfLower(s: string)
    ensures Letters(Lower(s)) == Lower(Letters(s))
  {
    if s != [] {
      var n := |s| - 1;
      LettersOfLower(s[..n]);
      assert Lower(s)[..n] == Lower(s[..n]);
      assert Lower(s)[n] == '_' <==> s[n] == '_';
      assert Lower(Letters(s[..n]) + [s[n]]) == Lower(Letters(s[..n])) + [LowerChar(s[n])];
    }
  }

  lemma {:induction false} LettersOfSplitWords(s: string)
    ensures Letters(SplitWords(s)) == Letters(s)
  {
    if s != [] {
      var n := |s| - 1;
      LettersOfSplitWords(s[..n]);
      var words := SplitWords(s[..n]);
      LettersOfAppend(s[..n], s[n]);
      assert s == s[..n] + [s[n]];
      if n > 0 && IsUpper(s[n]) {
        LettersOfAppend(words, '_');
        LettersOfAppend(words + "_", s[n]);
      } else {
        LettersOfAppend(words, s[n]);
        assert words + "" == words;
      }
    }
  }

  /** Only case and separators change: the letters and digits of the name, in lower case, are all kept in order. */
  lemma SnakeKeepsLetters(name: string)
    ensures Letters(ToSnake(name)) == Lower(Letters(DashesToUnderscores(name)))
  {
    var dashed := DashesToUnderscores(name);
    LettersOfLower(dashed);
    LettersOfLower(SplitWords(dashed));
    LettersOfSplitWords(dashed);
  }

  // ---- Camel case and back ----

  /** A word of an identifier: a small letter, and no capitals or separators after it. */
  predicate IsWord(w: string) {
    w != [] && 'a' <= w[0] <= 'z' && IsSnake(w) && '_' !in w
  }

  function Capitalize(w: string): (c: string)
    requires IsWord(w)
    ensures c != [] && IsUpper(c[0]) && Lower(c) == w
  {
    [(w[0] as nat - 32) as char] + w[1..]
  }

  ghost predicate AreWords(words: seq<string>) {
    words != [] && forall i | 0 <= i < |words| :: IsWord(words[i])
  }

  /** The words run together, each but the first with a capital. */
  ghost function Camel(words: seq<string>): string
    requires AreWords(words)
  {
    var n := |words| - 1;
    if n == 0 then words[0] else Camel(words[..n]) + Capitalize(words[n])
  }

  ghost function Underscored(words: seq<string>): string
    requires AreWords(words)
  {
    var n := |words| - 1;
    if n == 0 then words[0] else Underscored(words[..n]) + "_" + words[n]
  }

  lemma LowerConcat(s: string, t: string)
    ensures Lower(s + t) == Lower(s) + Lower(t)
  {
  }

  /** No underscore is put into a stretch without capitals. */
  lemma {:induction false} SplitWordsTail(s: string, t: string)
    requires forall c | c in t :: !IsUpper(c)
    ensures SplitWords(s + t) == SplitWords(s) + t
  {
    if t == [] {
      assert s + t == s;
    } else {
      var n := |t| - 1;
      assert (s + t)[..|s| + n] == s + t[..n];
      SplitWordsTail(s, t[..n]);
      assert t == t[..n] + [t[n]];
    }
  }

  /** One underscore goes before a capital that follows something. */
  lemma SplitWordsNext(s: string, w: string)
    requires s != [] && IsWord(w)
    ensures SplitWords(s + Capitalize(w)) == SplitWords(s) + "_" + Capitalize(w)
  {
    var c := [Capitalize(w)[0]];
    assert (s + c)[..|s|] == s;
    assert s + Capitalize(w) == (s + c) + w[1..];
    SplitWordsTail(s + c, w[1..]);
  }

  lemma {:induction false} CamelSplits(words: seq<string>)
    requires AreWords(words)
    ensures Camel(words) != [] && SplitLower(Camel(words)) == Underscored(words)
  {
    var n := |words| - 1;
    if n == 0 {
      SplitWordsOfSnake(words[0]);
      LowerOfSnake(words[0]);
    } else {
      CamelSplits(words[..n]);
      OneMoreWord(Camel(words[..n]), words[n], Underscored(words[..n]));
    }
  }

  lemma {:induction false} CamelHasNoSeparators(words: seq<string>)
    requires AreWords(words)
    ensures '_' !in Camel(words) && '-' !in Camel(words)
  {
    var n := |words| - 1;
    NoSeparators(words[n]);
    if n > 0 {
      CamelHasNoSeparators(words[..n]);
    }
  }

  lemma NoSeparators(w: string)
    requires IsWord(w)
    ensures '_' !in Capitalize(w) && '-' !in Capitalize(w)
  {
  }

  /** The snake case of a camel-case name is its words with underscores between them. */
  lemma CamelRoundTrip(words: seq<string>)
    requires AreWords(words)
    ensures ToSnake(Camel(words)) == Underscored(words)
  {
    CamelSplits(words);
    CamelHasNoSeparators(words);
    assert DashesToUnderscores(Camel(words)) == Camel(words);
  }

  /** The words run together, each with a capital. */
  ghost function Pascal(words: seq<string>): string
    requires AreWords(words)
  {
    var n := |words| - 1;
    if n == 0 then Capitalize(words[0]) else Pascal(words[..n]) + Capitalize(words[n])
  }

  /** No underscore goes before a capital that nothing precedes. */
  lemma SplitFirstCapital(w: string)
    requires IsWord(w)
    ensures SplitLower(Capitalize(w)) == w
  {
    var c := [Capitalize(w)[0]];
    assert c[..0] == [];
    assert Capitalize(w) == c + w[1..];
    SplitWordsTail(c, w[1..]);
  }

  lemma {:induction false} PascalSplits(words: seq<string>)
    requires AreWords(words)
    ensures Pascal(words) != [] && SplitLower(Pascal(words)) == Underscored(words)
  {
    var n := |words| - 1;
    if n == 0 {
      SplitFirstCapital(words[0]);
    } else {
      PascalSplits(words[..n]);
      OneMoreWord(Pascal(words[..n]), words[n], Underscored(words[..n]));
    }
  }

  lemma {:induction false} PascalHasNoSeparators(words: seq<string>)
    requires AreWords(words)
    ensures '_' !in Pascal(words) && '-' !in Pascal(words)
  {
    var n := |words| - 1;
    NoSeparators(words[n]);
    if n > 0 {
      PascalHasNoSeparators(words[..n]);
    }
  }

  /** A name without separators is split before its capitals, and lowered. */
  function SplitLower(s: string): string {
    Lower(SplitWords(s))
  }

  lemma OneMoreWord(s: string, w: string, before: string)
    requires s != [] && IsWord(w) && SplitLower(s) == before
    ensures SplitLower(s + Capitalize(w)) == before + "_" + w
  {
    SplitWordsNext(s, w);
    LowerConcat(SplitWords(s) + "_", Capitalize(w));
    LowerConcat(SplitWords(s), "_");
    assert Lower("_") == "_";
  }

  /** The same for a name that starts with a capital. */
  lemma PascalRoundTrip(words: seq<string>)
    requires AreWords(words)
    ensures ToSnake(Pascal(words)) == Underscored(words)
  {
    PascalSplits(words);
    PascalHasNoSeparators(words);
    assert DashesToUnderscores(Pascal(words)) == Pascal(words);
  }

  /** A name with a separator keeps its length: every dash becomes an underscore, every capital a small letter. */
  lemma SeparatedNames(name: string, i: nat)
    requires ('_' in name || '-' in name) && i < |name|
    ensures |ToSnake(name)| == |name|
    ensures ToSnake(name)[i] ==
      if name[i] == '-' then '_'
      else if 'A' <= name[i] <= 'Z' then (name[i] as int + 32) as char
      else name[i]
  {
    var dashed := DashesToUnderscores(name);
    if '-' in name {
      var k :| 0 <= k < |name| && name[k] == '-';
      assert dashed[k] == '_';
    } else {
      var k :| 0 <= k < |name| && name[k] == '_';
      assert dashed[k] == '_';
    }
  }
}
