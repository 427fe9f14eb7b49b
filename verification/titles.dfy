/** File-name handling of the bot: the case-insensitive `.epub` test that
    gates uploads, and `prettify_title`, which turns an uploaded file name
    into the book title shown in the confirmation reply.

    Whitespace follows Python's `str.isspace` (which is what both the regular
    expression class `\s` and `str.strip` use), and case folding follows ASCII,
    which agrees with Python's Unicode folding on the five characters of
    `.epub`. */
module Titles {

  /** The extension every accepted upload must carry. */
  const EpubExtension: string := ".epub"

  /** Python's whitespace characters: C0 separators, space, NEL, NBSP and the
      Unicode space separators. */
  predicate IsSpace(c: char) {
    ('\t' <= c <= '\r') || ('\U{1C}' <= c <= '\U{1F}') || c == ' '
    || c == '\U{85}' || c == '\U{A0}' || c == '\U{1680}'
    || ('\U{2000}' <= c <= '\U{200A}') || c == '\U{2028}' || c == '\U{2029}'
    || c == '\U{202F}' || c == '\U{205F}' || c == '\U{3000}'
  }

  predicate IsSeparator(c: char) {
    c == '_' || c == '-'
  }

  function ToLower(c: char): char {
    if 'A' <= c <= 'Z' then (c as int + 32) as char else c
  }

  function Lower(s: string): string {
    seq(|s|, i requires 0 <= i < |s| => ToLower(s[i]))
  }

  /** `name.lower().endswith(".epub")`, which is also where `\.epub$` with
      IGNORECASE matches when the name does not end in a newline. */
  predicate HasEpubExtension(name: string) {
    |name| >= |EpubExtension| && Lower(name[|name| - |EpubExtension|..]) == EpubExtension
  }

  /** The extension test, character by character: a dot followed by the
      letters e, p, u, b, each in either case. */
  lemma HasEpubExtensionCharwise(name: string)
    ensures HasEpubExtension(name)
        <==> |name| >= 5 && name[|name| - 5] == '.'
             && name[|name| - 4] in "eE" && name[|name| - 3] in "pP"
             && name[|name| - 2] in "uU" && name[|name| - 1] in "bB"
  {
    if |name| >= 5 {
      var tail := name[|name| - 5..];
      assert Lower(tail) == [ToLower(tail[0]), ToLower(tail[1]), ToLower(tail[2]),
                             ToLower(tail[3]), ToLower(tail[4])];
    }
  }

  /** `re.sub(r"\.epub$", "", name, flags=re.IGNORECASE)`. Python's `$` matches
      at the very end and also just before a final newline, so a name such as
      "x.EPUB\n" loses its extension and keeps the newline. At most one match
      is possible, so at most one extension goes. */
  function StripEpubExtension(name: string): string {
    if HasEpubExtension(name) then
      name[..|name| - |EpubExtension|]
    else if |name| > 0 && name[|name| - 1] == '\n' && HasEpubExtension(name[..|name| - 1]) then
      name[..|name| - 1 - |EpubExtension|] + "\n"
    else
      name
  }

  predicate NoSeparators(s: string) {
    forall i :: 0 <= i < |s| ==> !IsSeparator(s[i])
  }

  /** Every whitespace character is a plain space and is followed by a
      character that is not whitespace (or by nothing). */
  predicate SingleSpaced(s: string) {
    && (forall i :: 0 <= i < |s| && IsSpace(s[i]) ==> s[i] == ' ')
    && (forall i, j :: 0 <= i < |s| && 0 <= j < |s| && j == i + 1 ==> !(IsSpace(s[i]) && IsSpace(s[j])))
  }

  predicate Trimmed(s: string) {
    s == [] || (!IsSpace(s[0]) && !IsSpace(s[|s| - 1]))
  }

  /** `s.replace(a, b)` for one-character strings. */
  function ReplaceChar(s: string, a: char, b: char): string {
    seq(|s|, i requires 0 <= i < |s| => if s[i] == a then b else s[i])
  }

  /** `name.replace("_", " ").replace("-", " ")` */
  function ReplaceSeparators(name: string): (r: string)
    ensures |r| == |name| && NoSeparators(r)
    ensures forall i :: 0 <= i < |name| ==> r[i] == if IsSeparator(name[i]) then ' ' else name[i]
  {
    ReplaceChar(ReplaceChar(name, '_', ' '), '-', ' ')
  }

  /** How many whitespace characters `s` starts with. */
  function LeadingSpaces(s: string): (n: nat)
    ensures n <= |s|
    ensures forall i :: 0 <= i < n ==> IsSpace(s[i])
    ensures n == |s| || !IsSpace(s[n])
  {
    if s != [] && IsSpace(s[0]) then 1 + LeadingSpaces(s[1..]) else 0
  }

  /** Leading whitespace removed (the left half of `str.strip`). */
  function DropSpaces(s: string): string {
    s[LeadingSpaces(s)..]
  }

  /** The length of `s` without its trailing whitespace. */
  function KeptLength(s: string): (n: nat)
    ensures n <= |s|
    ensures forall i :: n <= i < |s| ==> IsSpace(s[i])
    ensures n == 0 || !IsSpace(s[n - 1])
  {
    if s != [] && IsSpace(s[|s| - 1]) then KeptLength(s[..|s| - 1]) else |s|
  }

  /** Trailing whitespace removed (the right half of `str.strip`). */
  function StripRight(s: string): string {
    s[..KeptLength(s)]
  }

  /** `str.strip()`: whitespace removed at both ends. */
  function Strip(s: string): string {
    StripRight(DropSpaces(s))
  }

  /** `re.sub(r"\s+", " ", s)`: every maximal run of whitespace becomes one space. */
  function Collapse(s: string): string
    decreases |s|
  {
    if s == [] then []
    else if IsSpace(s[0]) then [' '] + Collapse(DropSpaces(s))
    else [s[0]] + Collapse(s[1..])
  }

  /** `prettify_title` (main.py:60-67). */
  function PrettifyTitle(filename: string): (r: string)
    ensures NoSeparators(r)
    ensures SingleSpaced(r)
    ensures Trimmed(r)
  {
    var spaced := ReplaceSeparators(StripEpubExtension(filename));
    CollapseShape(spaced);
    StripShape(Collapse(spaced));
    Strip(Collapse(spaced))
  }

  /** What Strip leaves: a middle part of the text that neither starts nor
      ends with whitespace, so spacing and characters inside are kept. */
  lemma StripShape(s: string)
    ensures Trimmed(Strip(s))
    ensures SingleSpaced(s) ==> SingleSpaced(Strip(s))
    ensures NoSeparators(s) ==> NoSeparators(Strip(s))
  {
    var t := DropSpaces(s);
    var r := StripRight(t);
    assert r != [] ==> r[0] == t[0];
    assert forall i :: 0 <= i < |r| ==> r[i] == s[|s| - |t| + i];
  }

  /** What Collapse produces: single spaces only, the first character kept
      (or turned into a space), and no separator that was not there. */
  lemma {:induction false} CollapseShape(s: string)
    ensures (Collapse(s) == []) == (s == [])
    ensures Collapse(s) != [] ==> Collapse(s)[0] == if IsSpace(s[0]) then ' ' else s[0]
    ensures SingleSpaced(Collapse(s))
    ensures NoSeparators(s) ==> NoSeparators(Collapse(s))
    decreases |s|
  {
    if s != [] {
      var rest := if IsSpace(s[0]) then DropSpaces(s) else s[1..];
      CollapseShape(rest);
      var head: char := if IsSpace(s[0]) then ' ' else s[0];
      var c := Collapse(rest);
      assert Collapse(s) == [head] + c;
      assert IsSpace(s[0]) ==> c == [] || !IsSpace(c[0]);
      assert NoSeparators(s) ==> NoSeparators(rest) by {
        assert forall i :: 0 <= i < |rest| ==> rest[i] == s[|s| - |rest| + i];
      }
    }
  }

  // ---------------------------------------------------------------------
  // An independent description of "collapse, then strip": the words of the
  // text joined by single spaces (Python's `" ".join(s.split())`).

  /** The length of the longest prefix without whitespace. */
  function WordLength(s: string): (n: nat)
    ensures n <= |s|
    ensures forall i :: 0 <= i < n ==> !IsSpace(s[i])
    ensures n == |s| || IsSpace(s[n])
  {
    if s == [] || IsSpace(s[0]) then 0 else 1 + WordLength(s[1..])
  }

  predicate IsWord(w: string) {
    w != [] && forall i :: 0 <= i < |w| ==> !IsSpace(w[i])
  }

  /** The maximal runs of non-whitespace characters, in order. */
  function Words(s: string): seq<string>
    decreases |s|
  {
    var t := DropSpaces(s);
    if t == [] then []
    else
      var n := WordLength(t);
      [t[..n]] + Words(t[n..])
  }

  function Join(ws: seq<string>): string {
    if |ws| == 0 then []
    else if |ws| == 1 then ws[0]
    else ws[0] + [' '] + Join(ws[1..])
  }

  /** The contracts of LeadingSpaces and KeptLength pin their results down. */
  lemma LeadingSpacesUnique(s: string, n: nat)
    requires n <= |s| && (n == |s| || !IsSpace(s[n]))
    requires forall i :: 0 <= i < n ==> IsSpace(s[i])
    ensures LeadingSpaces(s) == n
  {
  }

  lemma KeptLengthUnique(s: string, n: nat)
    requires n <= |s| && (n == 0 || !IsSpace(s[n - 1]))
    requires forall i :: n <= i < |s| ==> IsSpace(s[i])
    ensures KeptLength(s) == n
  {
  }

  lemma {:induction false} WordsAreWords(s: string)
    ensures forall i :: 0 <= i < |Words(s)| ==> IsWord(Words(s)[i])
    decreases |s|
  {
    var t := DropSpaces(s);
    if t != [] {
      var n := WordLength(t);
      WordsAreWords(t[n..]);
      assert IsWord(t[..n]);
    }
  }

  lemma {:induction false} CollapseWord(s: string)
    ensures Collapse(s) == s[..WordLength(s)] + Collapse(s[WordLength(s)..])
    decreases |s|
  {
    if s != [] && !IsSpace(s[0]) {
      var k := WordLength(s[1..]);
      CollapseWord(s[1..]);
      assert s[1..][k..] == s[k + 1..];
      assert [s[0]] + s[1..][..k] == s[..k + 1];
    }
  }

  lemma StripRightAppend(a: string, b: string)
    requires StripRight(b) != []
    ensures StripRight(a + b) == a + StripRight(b)
  {
    var k := KeptLength(b);
    KeptLengthUnique(a + b, |a| + k);
    assert (a + b)[..|a| + k] == a + b[..k];
  }

  /** One step of Words on text that starts with a word. */
  lemma WordsStep(s: string)
    requires s != [] && !IsSpace(s[0])
    ensures Words(s) == [s[..WordLength(s)]] + Words(DropSpaces(s[WordLength(s)..]))
  {
    var rest := s[WordLength(s)..];
    LeadingSpacesUnique(s, 0);
    LeadingSpacesUnique(DropSpaces(rest), 0);
  }

  /** One step of Collapse on text that starts with a word. */
  lemma CollapseStep(s: string)
    requires s != [] && !IsSpace(s[0])
    ensures var w, rest := s[..WordLength(s)], s[WordLength(s)..];
            && (rest == [] ==> Collapse(s) == w)
            && (rest != [] ==> Collapse(s) == (w + [' ']) + Collapse(DropSpaces(rest)))
  {
    var n := WordLength(s);
    var w, rest := s[..n], s[n..];
    CollapseWord(s);
    if rest == [] {
      assert w + [] == w;
    } else {
      assert rest[0] == s[n];
      CollapseSpaceRun(rest);
      Associative(w, [' '], Collapse(DropSpaces(rest)));
    }
  }

  lemma Associative(a: string, b: string, c: string)
    ensures a + (b + c) == (a + b) + c
  {
  }

  /** A run of whitespace at the front collapses to one space. */
  lemma CollapseSpaceRun(r: string)
    requires r != [] && IsSpace(r[0])
    ensures Collapse(r) == [' '] + Collapse(DropSpaces(r))
  {
  }

  lemma JoinCons(w: string, ws: seq<string>)
    requires ws != []
    ensures Join([w] + ws) == w + [' '] + Join(ws)
  {
    assert ([w] + ws)[1..] == ws;
  }

  /** The last word: only whitespace, if anything, follows it. */
  lemma LastWord(s: string)
    requires s != [] && !IsSpace(s[0])
    requires DropSpaces(s[WordLength(s)..]) == []
    ensures StripRight(Collapse(s)) == Join(Words(s))
  {
    var w := s[..WordLength(s)];
    assert Words(s) == [w] by {
      WordsStep(s);
    }
    assert !IsSpace(w[|w| - 1]);
    assert StripRight(Collapse(s)) == w by {
      CollapseStep(s);
      if s[WordLength(s)..] == [] {
        assert Collapse(s) == w;
        assert KeptLength(w) == |w|;
      } else {
        var c := w + [' '];
        assert Collapse(DropSpaces(s[WordLength(s)..])) == [];
        assert c + [] == c;
        assert Collapse(s) == c;
        assert c[|c| - 1] == ' ' && c[..|c| - 1] == w;
        assert KeptLength(w) == |w|;
        assert KeptLength(c) == |w|;
        assert c[..|w|] == w;
      }
    }
  }

  /** A word followed by whitespace and more text that starts with a word. */
  lemma WordThenMore(s: string)
    requires s != [] && !IsSpace(s[0])
    requires DropSpaces(s[WordLength(s)..]) != []
    requires var r' := DropSpaces(s[WordLength(s)..]);
             StripRight(Collapse(r')) == Join(Words(r'))
    ensures StripRight(Collapse(s)) == Join(Words(s))
  {
    var w := s[..WordLength(s)];
    var r' := DropSpaces(s[WordLength(s)..]);
    var c := Collapse(r');
    assert !IsSpace(r'[0]) && c[0] == r'[0];
    assert Words(s) == [w] + Words(r') by {
      WordsStep(s);
    }
    assert Words(r') != [] by {
      LeadingSpacesUnique(r', 0);
    }
    assert Join(Words(s)) == w + [' '] + Join(Words(r')) by {
      JoinCons(w, Words(r'));
    }
    assert StripRight(c) != [] by {
      assert KeptLength(c) > 0;
    }
    assert StripRight(Collapse(s)) == (w + [' ']) + StripRight(c) by {
      assert s[WordLength(s)..] != [];
      CollapseStep(s);
      StripRightAppend(w + [' '], c);
    }
  }

  /** The heart of the correspondence: for text that does not start with
      whitespace, collapsing and then dropping trailing whitespace yields the
      words joined by single spaces. */
  lemma {:induction false} CollapseStripRightIsJoin(s: string)
    requires s == [] || !IsSpace(s[0])
    ensures StripRight(Collapse(s)) == Join(Words(s))
    decreases |s|
  {
    if s != [] {
      var r' := DropSpaces(s[WordLength(s)..]);
      if r' == [] {
        LastWord(s);
      } else {
        CollapseStripRightIsJoin(r');
        WordThenMore(s);
      }
    }
  }

  /** `re.sub(r"\s+", " ", s).strip()` equals `" ".join(s.split())`. */
  lemma {:induction false} CollapseStripIsJoinedWords(s: string)
    ensures Strip(Collapse(s)) == Join(Words(s))
  {
    var t := DropSpaces(s);
    assert Words(t) == Words(s) by {
      LeadingSpacesUnique(t, 0);
    }
    CollapseStripRightIsJoin(t);
    assert DropSpaces(Collapse(s)) == Collapse(t) by {
      CollapseDropsToTail(s);
    }
  }

  /** Leading whitespace of a collapsed string is at most the single space
      standing for the leading run of the input. */
  lemma CollapseDropsToTail(s: string)
    ensures DropSpaces(Collapse(s)) == Collapse(DropSpaces(s))
  {
    var c := Collapse(DropSpaces(s));
    CollapseShape(DropSpaces(s));
    LeadingSpacesUnique(c, 0);
    if s != [] && IsSpace(s[0]) {
      assert Collapse(s) == [' '] + c;
      LeadingSpacesUnique([' '] + c, 1);
      assert ([' '] + c)[1..] == c;
    } else {
      LeadingSpacesUnique(s, 0);
    }
  }

  /** The title is the words of the name, after the extension is removed and
      underscores and hyphens became spaces, joined by single spaces. */
  lemma PrettifyTitleIsJoinedWords(filename: string)
    ensures PrettifyTitle(filename)
         == Join(Words(ReplaceSeparators(StripEpubExtension(filename))))
  {
    CollapseStripIsJoinedWords(ReplaceSeparators(StripEpubExtension(filename)));
  }

  /** Exactly one extension is removed, in any letter case, even when the
      stem itself ends in `.epub`. */
  lemma StripEpubRemovesOneExtension(stem: string, ext: string)
    requires |ext| == |EpubExtension| && Lower(ext) == EpubExtension
    ensures StripEpubExtension(stem + ext) == stem
  {
    var s := stem + ext;
    assert s[|s| - |EpubExtension|..] == ext;
    assert s[..|s| - |EpubExtension|] == stem;
  }

  /** A name that does not end in the extension (nor in the extension and a
      newline) is left as it is. */
  lemma StripEpubKeepsOtherNames(name: string)
    requires !HasEpubExtension(name)
    requires name == [] || name[|name| - 1] != '\n' || !HasEpubExtension(name[..|name| - 1])
    ensures StripEpubExtension(name) == name
  {
  }

  lemma SingleSpacedTail(s: string)
    requires s != [] && SingleSpaced(s)
    ensures SingleSpaced(s[1..])
  {
    var t := s[1..];
    forall i, j | 0 <= i < |t| && 0 <= j < |t| && j == i + 1
      ensures !(IsSpace(t[i]) && IsSpace(t[j]))
    {
      assert t[i] == s[i + 1] && t[j] == s[j + 1];
    }
  }

  /** Text that is already single-spaced is left alone by Collapse. */
  lemma {:induction false} CollapseKeepsSingleSpaced(s: string)
    requires SingleSpaced(s)
    ensures Collapse(s) == s
    decreases |s|
  {
    if s != [] {
      SingleSpacedTail(s);
      CollapseKeepsSingleSpaced(s[1..]);
      if IsSpace(s[0]) {
        assert |s| == 1 || !IsSpace(s[1]);
        LeadingSpacesUnique(s, 1);
      }
    }
  }

  /** Text without surrounding whitespace is left alone by Strip. */
  lemma StripKeepsTrimmed(s: string)
    requires Trimmed(s)
    ensures Strip(s) == s
  {
    LeadingSpacesUnique(s, 0);
    assert DropSpaces(s) == s;
    KeptLengthUnique(s, |s|);
  }

  /** When replacing underscores and hyphens already gives a clean title,
      that is the title: nothing else changes. */
  lemma PrettifyCleanStem(stem: string, ext: string)
    requires |ext| == |EpubExtension| && Lower(ext) == EpubExtension
    requires SingleSpaced(ReplaceSeparators(stem)) && Trimmed(ReplaceSeparators(stem))
    ensures PrettifyTitle(stem + ext) == ReplaceSeparators(stem)
  {
    StripEpubRemovesOneExtension(stem, ext);
    CollapseKeepsSingleSpaced(ReplaceSeparators(stem));
    StripKeepsTrimmed(ReplaceSeparators(stem));
  }

  /** Printable ASCII text with no two spaces in a row is single-spaced. */
  lemma AsciiSingleSpaced(s: string)
    requires forall i :: 0 <= i < |s| ==> ' ' <= s[i] <= '~'
    requires forall i, j :: 0 <= i < |s| && 0 <= j < |s| && j == i + 1 ==> !(s[i] == ' ' && s[j] == ' ')
    ensures SingleSpaced(s)
  {
  }

  lemma PrettifyTitleSeparatorsExample()
    ensures PrettifyTitle("Some_Book-Title.epub") == "Some Book Title"
  {
    var stem, clean := "Some_Book-Title", "Some Book Title";
    assert stem + ".epub" == "Some_Book-Title.epub";
    assert ReplaceSeparators(stem) == clean;
    assert Lower(".epub") == EpubExtension;
    AsciiSingleSpaced(clean);
    PrettifyCleanStem(stem, ".epub");
  }

  lemma PrettifyTitleCleanExample()
    ensures PrettifyTitle("already clean.epub") == "already clean"
  {
    var stem := "already clean";
    assert stem + ".epub" == "already clean.epub";
    assert ReplaceSeparators(stem) == stem;
    assert Lower(".epub") == EpubExtension;
    AsciiSingleSpaced(stem);
    PrettifyCleanStem(stem, ".epub");
  }

  /** Only the last extension goes. */
  lemma PrettifyTitleDoubleExtensionExample()
    ensures PrettifyTitle("a.epub.EPUB") == "a.epub"
  {
    var stem := "a.epub";
    assert stem + ".EPUB" == "a.epub.EPUB";
    assert ReplaceSeparators(stem) == stem;
    assert Lower(".EPUB") == EpubExtension;
    AsciiSingleSpaced(stem);
    PrettifyCleanStem(stem, ".EPUB");
  }

  /** A run of separators becomes a single space. */
  lemma PrettifyTitleRunExample()
    ensures PrettifyTitle("a__-b.epub") == "a b"
  {
    var name := "a__-b.epub";
    assert Lower(name[|name| - 5..]) == EpubExtension;
    assert StripEpubExtension(name) == "a__-b";
    var spaced := "a   b";
    assert ReplaceSeparators("a__-b") == spaced;
    assert LeadingSpaces("   b") == 3 by {
      LeadingSpacesUnique("   b", 3);
    }
    assert Collapse("b") == "b";
    assert Collapse("   b") == " b";
    assert Collapse(spaced) == "a b";
    StripKeepsTrimmed("a b");
  }
}
