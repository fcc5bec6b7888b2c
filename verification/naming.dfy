/** The two escaping passes of the generator, kept apart on purpose: one
    turns a raw enum or flag value into part of a Go identifier, the other
    turns it into the payload of a Go string literal. */
module Naming {
  import opened Wrappers

  /** `symbolMap`: each symbol that may not appear in a Go identifier, with
      the word that replaces it, in table order. */
  const SymbolMap: seq<(char, string)> := [
    ('=', "Eq"), ('>', "Gt"), ('-', "Hyphen"), ('<', "Lt"), ('|', "Or"),
    ('/', "Slash"), ('\\', "Doublebackslash"), ('^', "Cape"), ('(', "Lpar"),
    (')', "Rpar"), ('[', "Lbracket"), (']', "Rbracket"), ('+', "Plus"),
    ('?', "Question"), ('$', "Dollar")
  ]

  predicate IsLetter(c: char)
  {
    'A' <= c <= 'Z' || 'a' <= c <= 'z'
  }

  /** The word for `c` in `table`; the first entry wins, as in `strings.NewReplacer`. */
  function Lookup(table: seq<(char, string)>, c: char): Option<string>
  {
    if |table| == 0 then None
    else if table[0].0 == c then Some(table[0].1)
    else Lookup(table[1..], c)
  }

  /** A replacement table whose symbols are not letters and whose words are
      non-empty and made of letters. */
  ghost predicate LetterWords(table: seq<(char, string)>)
  {
    forall k :: 0 <= k < |table| ==>
      !IsLetter(table[k].0) && |table[k].1| > 0 && forall j :: 0 <= j < |table[k].1| ==> IsLetter(table[k].1[j])
  }

  lemma {:induction false} LookupInLetterWords(table: seq<(char, string)>, c: char)
    requires LetterWords(table)
    ensures Lookup(table, c).Some? ==> !IsLetter(c) && |Lookup(table, c).value| > 0
    ensures Lookup(table, c).Some? ==> forall j :: 0 <= j < |Lookup(table, c).value| ==> IsLetter(Lookup(table, c).value[j])
  {
    if |table| > 0 && table[0].0 != c {
      assert LetterWords(table[1..]) by {
        forall k | 0 <= k < |table| - 1 ensures table[1..][k] == table[k + 1] { }
      }
      LookupInLetterWords(table[1..], c);
    }
  }

  lemma SymbolMapHasLetterWords()
    ensures LetterWords(SymbolMap)
  {
  }

  /** A character the identifier pass replaces. */
  predicate IsSymbol(c: char)
  {
    Lookup(SymbolMap, c).Some?
  }

  /** What one character of a raw value becomes in an identifier. */
  function CleanChar(c: char): string
  {
    match Lookup(SymbolMap, c)
    case Some(w) => w
    case None => [c]
  }

  /** Letters are never replaced. */
  lemma LetterIsNotSymbol(c: char)
    requires IsLetter(c)
    ensures !IsSymbol(c)
  {
    SymbolMapHasLetterWords();
    LookupInLetterWords(SymbolMap, c);
  }

  lemma CleanCharHasNoSymbol(c: char)
    ensures |CleanChar(c)| > 0
    ensures forall j :: 0 <= j < |CleanChar(c)| ==> !IsSymbol(CleanChar(c)[j])
  {
    SymbolMapHasLetterWords();
    LookupInLetterWords(SymbolMap, c);
    forall j | 0 <= j < |CleanChar(c)|
      ensures !IsSymbol(CleanChar(c)[j])
    {
      if IsSymbol(c) {
        LookupInLetterWords(SymbolMap, CleanChar(c)[j]);
      }
    }
  }

  /** `cleanName`: one left-to-right pass replacing every symbol of the table by
      its word. Every symbol is one ASCII byte, which never occurs inside the
      UTF-8 encoding of another character, so the byte-wise Go replacer and
      this character-wise pass agree. */
  function CleanName(name: string): (r: string)
    ensures forall i :: 0 <= i < |r| ==> !IsSymbol(r[i])
    ensures |r| >= |name|
  {
    if |name| == 0 then ""
    else
      CleanCharHasNoSymbol(name[0]);
      var head := CleanChar(name[0]);
      var tail := CleanName(name[1..]);
      assert forall i :: 0 <= i < |head| ==> (head + tail)[i] == head[i];
      assert forall i :: |head| <= i < |head| + |tail| ==> (head + tail)[i] == tail[i - |head|];
      head + tail
  }

  /** The pass is applied character by character: cleaning a concatenation
      cleans each part, so no match spans a boundary and no replacement word
      is scanned again. */
  lemma {:induction false} CleanNameConcat(a: string, b: string)
    ensures CleanName(a + b) == CleanName(a) + CleanName(b)
  {
    if |a| == 0 {
      assert a + b == b;
    } else {
      assert (a + b)[1..] == a[1..] + b;
      CleanNameConcat(a[1..], b);
    }
  }

  /** A character outside the table is kept as it is. */
  lemma CleanNameKeepsOthers(c: char)
    requires !IsSymbol(c)
    ensures CleanName([c]) == [c]
  {
    assert [c][1..] == "";
  }

  /** A symbol is replaced by its table word. */
  lemma CleanNameReplacesSymbol(c: char)
    requires IsSymbol(c)
    ensures CleanName([c]) == Lookup(SymbolMap, c).value
  {
    assert [c][1..] == "";
  }

  /** Every character of a name is cleaned where it stands, whatever
      surrounds it: a symbol becomes its word, any other character stays. */
  lemma CleanNameCharwise(a: string, c: char, b: string)
    ensures CleanName(a + [c] + b) ==
      CleanName(a) + (if IsSymbol(c) then Lookup(SymbolMap, c).value else [c]) + CleanName(b)
  {
    CleanNameConcat(a + [c], b);
    CleanNameConcat(a, [c]);
    if IsSymbol(c) {
      CleanNameReplacesSymbol(c);
    } else {
      CleanNameKeepsOthers(c);
    }
  }

  /** Text without symbols passes through unchanged. */
  lemma {:induction false} CleanNameIdentity(s: string)
    requires forall i :: 0 <= i < |s| ==> !IsSymbol(s[i])
    ensures CleanName(s) == s
  {
    if |s| > 0 {
      CleanNameIdentity(s[1..]);
      assert s == [s[0]] + s[1..];
    }
  }

  /** Cleaning twice is cleaning once. */
  lemma CleanNameIdempotent(s: string)
    ensures CleanName(CleanName(s)) == CleanName(s)
  {
    CleanNameIdentity(CleanName(s));
  }

  lemma HyphenWord()
    ensures CleanName("-") == "Hyphen"
  {
    assert SymbolMap[0].0 != '-' && SymbolMap[1].0 != '-' && SymbolMap[2] == ('-', "Hyphen");
    assert Lookup(SymbolMap[2..], '-') == Some("Hyphen");
    assert Lookup(SymbolMap[1..], '-') == Some("Hyphen");
    assert Lookup(SymbolMap, '-') == Some("Hyphen");
    assert "-"[1..] == "";
  }

  lemma {:induction false} LettersKept(s: string)
    requires forall i :: 0 <= i < |s| ==> IsLetter(s[i])
    ensures CleanName(s) == s
  {
    if |s| > 0 {
      LetterIsNotSymbol(s[0]);
      LettersKept(s[1..]);
      assert s == [s[0]] + s[1..];
    }
  }

  /** Two words joined by a hyphen, as in "bottom-left": the hyphen becomes
      "Hyphen" and the words stay as they are ("bottomHyphenleft"). */
  lemma {:induction false} CleanNameHyphenated(a: string, b: string)
    requires forall i :: 0 <= i < |a| ==> IsLetter(a[i])
    requires forall i :: 0 <= i < |b| ==> IsLetter(b[i])
    ensures CleanName(a + "-" + b) == a + "Hyphen" + b
  {
    CleanNameConcat(a + "-", b);
    CleanNameConcat(a, "-");
    LettersKept(a);
    LettersKept(b);
    HyphenWord();
  }

  /** How often `c` occurs in `s`. */
  function Count(s: string, c: char): nat
  {
    if |s| == 0 then 0 else (if s[0] == c then 1 else 0) + Count(s[1..], c)
  }

  /** `s` with every occurrence of `c` deleted. */
  function Without(s: string, c: char): string
  {
    if |s| == 0 then "" else (if s[0] == c then "" else [s[0]]) + Without(s[1..], c)
  }

  /** `cleanValue`: `strings.ReplaceAll(value, "\\", "\\\\")`, doubling every
      backslash so that the value can sit inside a Go string literal. */
  function CleanValue(v: string): (r: string)
    ensures Count(r, '\\') == 2 * Count(v, '\\')
    ensures Without(r, '\\') == Without(v, '\\')
    ensures |r| == |v| + Count(v, '\\')
  {
    if |v| == 0 then ""
    else
      var head := if v[0] == '\\' then "\\\\" else [v[0]];
      var tail := CleanValue(v[1..]);
      CountConcat(head, tail, '\\');
      WithoutConcat(head, tail, '\\');
      head + tail
  }

  lemma {:induction false} CountConcat(a: string, b: string, c: char)
    ensures Count(a + b, c) == Count(a, c) + Count(b, c)
  {
    if |a| > 0 {
      assert (a + b)[1..] == a[1..] + b;
      CountConcat(a[1..], b, c);
    } else {
      assert a + b == b;
    }
  }

  lemma {:induction false} WithoutConcat(a: string, b: string, c: char)
    ensures Without(a + b, c) == Without(a, c) + Without(b, c)
  {
    if |a| > 0 {
      assert (a + b)[1..] == a[1..] + b;
      WithoutConcat(a[1..], b, c);
    } else {
      assert a + b == b;
    }
  }

  /** Reading a literal payload back: the escape sequence of two backslashes
      stands for one backslash; a backslash not followed by another is not an
      escape this pass produces, and reading fails there. */
  function UnescapeValue(t: string): Option<string>
  {
    if |t| == 0 then Some("")
    else if t[0] == '\\' then
      if |t| >= 2 && t[1] == '\\' then
        match UnescapeValue(t[2..])
        case Some(rest) => Some("\\" + rest)
        case None => None
      else None
    else
      match UnescapeValue(t[1..])
      case Some(rest) => Some([t[0]] + rest)
      case None => None
  }

  /** Escaping round-trips: reading the literal payload back recovers the raw value. */
  lemma {:induction false} CleanValueRoundTrip(v: string)
    ensures UnescapeValue(CleanValue(v)) == Some(v)
  {
    if |v| > 0 {
      CleanValueRoundTrip(v[1..]);
      var t := CleanValue(v);
      if v[0] == '\\' {
        assert t == "\\\\" + CleanValue(v[1..]);
        assert t[2..] == CleanValue(v[1..]);
      } else {
        assert t == [v[0]] + CleanValue(v[1..]);
        assert t[1..] == CleanValue(v[1..]);
      }
      assert v == [v[0]] + v[1..];
    }
  }

  /** And conversely: every payload that reads back as `v` is the escaping of `v`,
      so no two raw values share an escaped form. */
  lemma {:induction false} UnescapeValueInverse(t: string, v: string)
    requires UnescapeValue(t) == Some(v)
    ensures CleanValue(v) == t
  {
    if |t| > 0 {
      if t[0] == '\\' {
        var rest := UnescapeValue(t[2..]).value;
        UnescapeValueInverse(t[2..], rest);
        assert v == "\\" + rest;
        assert v[1..] == rest;
        assert t == "\\\\" + t[2..];
      } else {
        var rest := UnescapeValue(t[1..]).value;
        UnescapeValueInverse(t[1..], rest);
        assert v == [t[0]] + rest;
        assert v[1..] == rest;
        assert t == [t[0]] + t[1..];
      }
    }
  }
}
