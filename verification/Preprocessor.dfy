/**
  Macro expansion: the find-and-replace loop for one define.  For a name of identifier
  characters it replaces exactly the whole words; a name may hold other characters too.
 */
module Preprocessor {

  predicate IsIdentChar(c: char) { 'a' <= c <= 'z' || 'A' <= c <= 'Z' || '0' <= c <= '9' || c == '_' }

  /** A macro name: at least one character, all of them identifier characters. */
  predicate IsWord(name: string) { name != [] && forall k | 0 <= k < |name| :: IsIdentChar(name[k]) }

  // ---- what expansion means ----

  /** Length of the run of identifier characters a text starts with. */
  function Run(s: string): (n: nat)
    ensures n <= |s| && (forall k | 0 <= k < n :: IsIdentChar(s[k])) && (n < |s| ==> !IsIdentChar(s[n]))
  {
    if s == [] || !IsIdentChar(s[0]) then 0 else 1 + Run(s[1..])
  }

  /** Every maximal run of identifier characters that is the name becomes the value; all else stays. */
  function Expand(s: string, name: string, value: string): string
    decreases |s|
  {
    if s == [] then []
    else if Run(s) == 0 then [s[0]] + Expand(s[1..], name, value)
    else (if s[..Run(s)] == name then value else s[..Run(s)]) + Expand(s[Run(s)..], name, value)
  }

  /** Expansion of what follows, `inside` telling whether a run is already under way. */
  function ExpandFrom(inside: bool, s: string, name: string, value: string): string {
    if inside then s[..Run(s)] + Expand(s[Run(s)..], name, value) else Expand(s, name, value)
  }

  predicate OccursAt(s: string, name: string, p: nat) { p + |name| <= |s| && s[p..p + |name|] == name }

  /** Is the occurrence at the start of `s` a whole word, given that no run is under way? */
  predicate WholeWord(s: string, name: string) {
    OccursAt(s, name, 0) && (|name| == |s| || !IsIdentChar(s[|name|]))
  }

  predicate EndsInside(s: string) { s != [] && IsIdentChar(s[|s| - 1]) }

  /**
    Expansion from left to right for any name: at an occurrence nothing else can start.
    `inside` says whether the text in front ends with an identifier character.
   */
  function Scan(inside: bool, s: string, name: string, value: string): string
    requires name != []
    decreases |s|
  {
    if s == [] then []
    else if !OccursAt(s, name, 0) then [s[0]] + Scan(IsIdentChar(s[0]), s[1..], name, value)
    else if !inside && WholeWord(s, name) then value + Scan(EndsInside(value), s[|name|..], name, value)
    else name + Scan(EndsInside(name), s[|name|..], name, value)
  }

  lemma {:induction false} RunIs(s: string, n: nat)
    requires n <= |s| && (forall k | 0 <= k < n :: IsIdentChar(s[k])) && (n < |s| ==> !IsIdentChar(s[n]))
    ensures Run(s) == n
    decreases n
  {
    if n > 0 { RunIs(s[1..], n - 1); }
  }

  lemma WholeWordRun(s: string, name: string)
    requires IsWord(name)
    ensures WholeWord(s, name) <==> Run(s) == |name| && s[..Run(s)] == name
  {
    if WholeWord(s, name) {
      assert s[0..|name|] == name;
      forall k | 0 <= k < |name| ensures IsIdentChar(s[k]) { assert s[k] == name[k]; }
      RunIs(s, |name|);
    }
  }

  /** One character that does not start a whole word is copied. */
  lemma CopyOne(inside: bool, s: string, name: string, value: string)
    requires IsWord(name) && s != [] && (inside || !WholeWord(s, name))
    ensures ExpandFrom(inside, s, name, value) == [s[0]] + ExpandFrom(IsIdentChar(s[0]), s[1..], name, value)
  {
    hide WholeWord; hide IsWord; hide Expand; hide ExpandFrom;
    WholeWordRun(s, name);
    var r, t := Run(s), s[1..];
    if r > 0 {
      CopyRun(inside, s, name, value);
      CopyRun(true, t, name, value);
      var rest := Expand(s[r..], name, value);
      assert s[..r] == [s[0]] + t[..r - 1] && s[r..] == t[r - 1..];
      assert s[..r] + rest == [s[0]] + (t[..r - 1] + rest);
    } else {
      CopySeparator(inside, s, name, value);
    }
  }

  lemma CopySeparator(inside: bool, s: string, name: string, value: string)
    requires s != [] && Run(s) == 0
    ensures ExpandFrom(inside, s, name, value) == [s[0]] + ExpandFrom(IsIdentChar(s[0]), s[1..], name, value)
  {
    assert s[..0] == [] && s[0..] == s;
  }

  /** A run that is not the name, or one under way, is copied. */
  lemma CopyRun(inside: bool, s: string, name: string, value: string)
    requires inside || (Run(s) > 0 && s[..Run(s)] != name)
    ensures ExpandFrom(inside, s, name, value) == s[..Run(s)] + Expand(s[Run(s)..], name, value)
  {
  }

  /** An occurrence that is no whole word is copied, and leaves a run under way. */
  lemma CopyName(inside: bool, s: string, name: string, value: string)
    requires IsWord(name) && OccursAt(s, name, 0) && (inside || !WholeWord(s, name))
    ensures ExpandFrom(inside, s, name, value) == s[..|name|] + ExpandFrom(true, s[|name|..], name, value)
  {
    hide WholeWord; hide Expand; hide ExpandFrom;
    WholeWordRun(s, name);
    LongerRun(s, name);
    var n, r, t := |name|, Run(s), s[|name|..];
    CopyRun(inside, s, name, value);
    CopyRun(true, t, name, value);
    var rest := Expand(s[r..], name, value);
    assert s[..r] == s[..n] + t[..r - n] && s[r..] == t[r - n..];
    assert s[..r] + rest == s[..n] + (t[..r - n] + rest);
  }

  /** The run goes on behind an occurrence of a word. */
  lemma LongerRun(s: string, name: string)
    requires IsWord(name) && OccursAt(s, name, 0)
    ensures 0 < |name| <= Run(s) && Run(s[|name|..]) == Run(s) - |name|
  {
    var n, r, t := |name|, Run(s), s[|name|..];
    assert s[0..n] == name;
    forall k | 0 <= k < n ensures IsIdentChar(s[k]) { assert s[k] == name[k]; }
    assert r >= n;
    forall k | 0 <= k < r - n ensures IsIdentChar(t[k]) { assert t[k] == s[n + k]; }
    RunIs(t, r - n);
  }

  /** A whole word becomes the value; the rest does not depend on what is in front of it. */
  lemma ReplaceWord(s: string, name: string, value: string, inside: bool)
    requires IsWord(name) && WholeWord(s, name)
    ensures ExpandFrom(false, s, name, value) == value + ExpandFrom(inside, s[|name|..], name, value)
  {
    WholeWordRun(s, name);
    var t := s[|name|..];
    RunIs(t, 0);
    assert t[..0] == [] && t[0..] == t;
  }

  /** For a word, scanning replaces exactly the maximal runs equal to it. */
  lemma {:induction false} ScanIsExpand(inside: bool, s: string, name: string, value: string)
    requires IsWord(name)
    ensures Scan(inside, s, name, value) == ExpandFrom(inside, s, name, value)
    decreases |s|
  {
    hide ExpandFrom;
    if s == [] {
      AtEnd(inside, name, value);
    } else if !OccursAt(s, name, 0) {
      CopyOne(inside, s, name, value);
      ScanIsExpand(IsIdentChar(s[0]), s[1..], name, value);
    } else if !inside && WholeWord(s, name) {
      ReplaceWord(s, name, value, EndsInside(value));
      ScanIsExpand(EndsInside(value), s[|name|..], name, value);
    } else {
      CopyName(inside, s, name, value);
      ScanIsExpand(true, s[|name|..], name, value);
    }
  }

  lemma AtEnd(inside: bool, name: string, value: string)
    ensures ExpandFrom(inside, [], name, value) == []
  {
  }

  // ---- the loop ----

  /** `find`: the first occurrence from a position on. */
  method Find(s: string, name: string, from: nat) returns (p: nat, found: bool)
    requires from <= |s|
    ensures found ==> from <= p && OccursAt(s, name, p) && forall q | from <= q < p :: !OccursAt(s, name, q)
    ensures !found ==> forall q | from <= q <= |s| :: !OccursAt(s, name, q)
  {
    p := from;
    while p + |name| <= |s|
      invariant from <= p
      invariant forall q | from <= q < p :: !OccursAt(s, name, q)
    {
      if s[p..p + |name|] == name { return p, true; }
      p := p + 1;
    }
    found := false;
  }

  /** Does a run of identifier characters reach up to position `p`? */
  predicate Inside(s: string, p: nat)
    requires p <= |s|
  {
    p > 0 && IsIdentChar(s[p - 1])
  }

  lemma Shifted(s: string, name: string, p: nat, q: nat)
    requires p <= |s|
    ensures OccursAt(s[p..], name, q) <==> OccursAt(s, name, p + q)
  {
    if p + q + |name| <= |s| { assert s[p..][q..q + |name|] == s[p + q..p + q + |name|]; }
  }

  /** The steps of the scan: a character, a whole word, an occurrence inside something longer. */
  lemma ScanOne(inside: bool, s: string, name: string, value: string)
    requires name != [] && s != [] && !OccursAt(s, name, 0)
    ensures Scan(inside, s, name, value) == [s[0]] + Scan(IsIdentChar(s[0]), s[1..], name, value)
  {
  }

  lemma ScanWord(s: string, name: string, value: string)
    requires name != [] && WholeWord(s, name)
    ensures Scan(false, s, name, value) == value + Scan(EndsInside(value), s[|name|..], name, value)
  {
  }

  lemma ScanName(inside: bool, s: string, name: string, value: string)
    requires name != [] && OccursAt(s, name, 0) && (inside || !WholeWord(s, name))
    ensures Scan(inside, s, name, value) == name + Scan(EndsInside(name), s[|name|..], name, value)
  {
  }

  /** A stretch in which no occurrence starts is copied. */
  lemma {:induction false} CopyUpTo(inside: bool, s: string, k: nat, name: string, value: string)
    requires name != [] && k <= |s| && forall p | 0 <= p < k :: !OccursAt(s, name, p)
    ensures Scan(inside, s, name, value) ==
      s[..k] + Scan(if k == 0 then inside else IsIdentChar(s[k - 1]), s[k..], name, value)
    decreases k
  {
    hide Scan; hide OccursAt;
    if k == 0 {
      assert s[..0] == [] && s[0..] == s;
    } else {
      assert !OccursAt(s, name, 0);
      ScanOne(inside, s, name, value);
      var t := s[1..];
      forall p | 0 <= p < k - 1 ensures !OccursAt(t, name, p) {
        Shifted(s, name, 1, p);
        assert !OccursAt(s, name, p + 1);
      }
      CopyUpTo(IsIdentChar(s[0]), t, k - 1, name, value);
      assert s[..k] == [s[0]] + t[..k - 1] && s[k..] == t[k - 1..];
      if k > 1 { assert s[k - 1] == t[k - 2]; }
    }
  }

  /** The text in front of an occurrence the search skipped over, and what is still to be expanded. */
  lemma UpToOccurrence(s: string, name: string, value: string, from: nat, p: nat)
    requires name != [] && from <= p <= |s| && forall q | from <= q < p :: !OccursAt(s, name, q)
    ensures s[..from] + Scan(Inside(s, from), s[from..], name, value) ==
      s[..p] + Scan(Inside(s, p), s[p..], name, value)
  {
    hide Scan; hide OccursAt;
    var t := s[from..];
    forall q | 0 <= q < p - from ensures !OccursAt(t, name, q) {
      Shifted(s, name, from, q);
      assert !OccursAt(s, name, from + q);
    }
    CopyUpTo(Inside(s, from), t, p - from, name, value);
    assert t[p - from..] == s[p..] && s[..from] + t[..p - from] == s[..p];
    if p > from { assert t[p - from - 1] == s[p - 1]; }
  }

  /** Replacing a whole word keeps what the text up to the cursor and the expansion of the rest make together. */
  lemma ReplaceStep(s: string, name: string, value: string, p: nat)
    requires name != [] && OccursAt(s, name, p) && !Inside(s, p)
    requires p + |name| == |s| || !IsIdentChar(s[p + |name|])
    ensures var t, q := s[..p] + value + s[p + |name|..], p + |value|;
      t[..q] + Scan(Inside(t, q), t[q..], name, value) == s[..p] + Scan(Inside(s, p), s[p..], name, value)
  {
    hide Scan; hide WholeWord; hide Inside; hide EndsInside; hide IsIdentChar;
    var head, tail := s[..p] + value, s[p + |name|..];
    var more := Scan(EndsInside(value), tail, name, value);
    WordAt(s, name, p);
    ScanWord(s[p..], name, value);
    Spliced(head, tail);
    ValueEndsInside(s, p, value, tail);
    BehindName(s, p, |name|);
    Regrouped(s[..p], value, more);
  }

  lemma Spliced(head: string, tail: string)
    ensures (head + tail)[..|head|] == head && (head + tail)[|head|..] == tail
  {
  }

  lemma BehindName(s: string, p: nat, n: nat)
    requires p + n <= |s|
    ensures s[p..][n..] == s[p + n..]
  {
  }

  lemma Regrouped(a: string, b: string, c: string)
    ensures a + b + c == a + (b + c)
  {
  }

  lemma ValueEndsInside(s: string, p: nat, value: string, tail: string)
    requires p <= |s| && !Inside(s, p)
    ensures Inside(s[..p] + value + tail, p + |value|) == EndsInside(value)
  {
  }

  /** So does moving over an occurrence that is no whole word. */
  lemma SkipStep(s: string, name: string, value: string, p: nat)
    requires name != [] && OccursAt(s, name, p)
    requires Inside(s, p) || (p + |name| < |s| && IsIdentChar(s[p + |name|]))
    ensures var q := p + |name|;
      s[..q] + Scan(Inside(s, q), s[q..], name, value) == s[..p] + Scan(Inside(s, p), s[p..], name, value)
  {
    hide Scan; hide WholeWord;
    var q, rest := p + |name|, s[p..];
    Shifted(s, name, p, 0);
    NoWordAt(s, name, p);
    ScanName(Inside(s, p), rest, name, value);
    assert s[..q] == s[..p] + name && s[q..] == rest[|name|..];
    assert Inside(s, q) == EndsInside(name) by { assert s[p..q][|name| - 1] == name[|name| - 1]; }
    assert s[..p] + name + Scan(EndsInside(name), s[q..], name, value)
      == s[..p] + (name + Scan(EndsInside(name), s[q..], name, value));
  }

  lemma WordAt(s: string, name: string, p: nat)
    requires OccursAt(s, name, p) && (p + |name| == |s| || !IsIdentChar(s[p + |name|]))
    ensures WholeWord(s[p..], name)
  {
    Shifted(s, name, p, 0);
  }

  lemma NoWordAt(s: string, name: string, p: nat)
    requires OccursAt(s, name, p)
    requires (p > 0 && IsIdentChar(s[p - 1])) || (p + |name| < |s| && IsIdentChar(s[p + |name|]))
    ensures Inside(s, p) || !WholeWord(s[p..], name)
  {
  }

  method ExpandMacro(text: string, name: string, value: string) returns (result: string)
    requires name != []
    ensures result == Scan(false, text, name, value)
    ensures IsWord(name) ==> result == Expand(text, name, value)
  {
    hide Expand; hide ExpandFrom; hide IsWord; hide Scan;
    result := text;
    var pos: nat := 0;
    assert text[0..] == text && text[..0] == [];
    ghost var goal := Scan(false, text, name, value);
    while true
      invariant pos <= |result|
      invariant result[..pos] + Scan(Inside(result, pos), result[pos..], name, value) == goal
      decreases |result| - pos
    {
      ghost var from := pos;
      var found;
      pos, found := Find(result, name, pos);
      if !found {
        UpToOccurrence(result, name, value, from, |result|);
        NothingLeft(Inside(result, |result|), name, value);
        assert result[|result|..] == [] && result[..|result|] + [] == result;
        if IsWord(name) { ScanOfWord(text, name, value); }
        return;
      }
      UpToOccurrence(result, name, value, from, pos);
      if (pos == 0 || !IsIdentChar(result[pos - 1]))
         && (pos + |name| == |result| || !IsIdentChar(result[pos + |name|])) {
        ReplaceStep(result, name, value, pos);
        result := result[..pos] + value + result[pos + |name|..];
        pos := pos + |value|;
      } else {
        SkipStep(result, name, value, pos);
        pos := pos + |name|;
      }
    }
  }

  lemma NothingLeft(inside: bool, name: string, value: string)
    requires name != []
    ensures Scan(inside, [], name, value) == []
  {
  }

  lemma ScanOfWord(text: string, name: string, value: string)
    requires IsWord(name)
    ensures Scan(false, text, name, value) == Expand(text, name, value)
  {
    ScanIsExpand(false, text, name, value);
  }

  // ---- properties of expansion ----

  /** Does the name occur as a whole word? */
  predicate HasWord(s: string, name: string)
    decreases |s|
  {
    s != []
    && if Run(s) == 0 then HasWord(s[1..], name) else s[..Run(s)] == name || HasWord(s[Run(s)..], name)
  }

  /** A run in front of text that does not continue it expands on its own. */
  lemma WordInFront(w: string, rest: string, name: string, value: string)
    requires IsWord(w) && (rest == [] || !IsIdentChar(rest[0]))
    ensures Expand(w + rest, name, value) == (if w == name then value else w) + Expand(rest, name, value)
  {
    var s := w + rest;
    RunIs(s, |w|);
    assert s[..|w|] == w && s[|w|..] == rest;
  }

  /** A text starts with a run or with a character that belongs to none. */
  lemma RunIsWord(s: string)
    requires Run(s) > 0
    ensures var w, rest := s[..Run(s)], s[Run(s)..];
      IsWord(w) && (rest == [] || !IsIdentChar(rest[0])) && s == w + rest && |rest| < |s|
  {
  }

  lemma SeparatorInFront(c: char, rest: string, name: string, value: string)
    requires !IsIdentChar(c)
    ensures Expand([c] + rest, name, value) == [c] + Expand(rest, name, value)
  {
    assert ([c] + rest)[1..] == rest;
  }

  const SMALL := {
    'a', 'b', 'c', 'd', 'e', 'f', 'g', 'h', 'i', 'j', 'k', 'l', 'm',
    'n', 'o', 'p', 'q', 'r', 's', 't', 'u', 'v', 'w', 'x', 'y', 'z'}

  const CAPITAL := {
    'A', 'B', 'C', 'D', 'E', 'F', 'G', 'H', 'I', 'J', 'K', 'L', 'M',
    'N', 'O', 'P', 'Q', 'R', 'S', 'T', 'U', 'V', 'W', 'X', 'Y', 'Z'}

  const DIGITS := {'0', '1', '2', '3', '4', '5', '6', '7', '8', '9', '_'}

  predicate IsNamePart(c: char) { c in SMALL || c in CAPITAL || c in DIGITS }

  lemma SmallLetters(c: char)
    ensures 'a' <= c <= 'z' <==> c in SMALL
  {
    var code := c as int;
    assert c == code as char;
    if 97 <= code <= 122 {
      assert code == 97 || code == 98 || code == 99 || code == 100 || code == 101 || code == 102 || code == 103
        || code == 104 || code == 105 || code == 106 || code == 107 || code == 108 || code == 109 || code == 110
        || code == 111 || code == 112 || code == 113 || code == 114 || code == 115 || code == 116 || code == 117
        || code == 118 || code == 119 || code == 120 || code == 121 || code == 122;
    }
  }

  lemma CapitalLetters(c: char)
    ensures 'A' <= c <= 'Z' <==> c in CAPITAL
  {
    var code := c as int;
    assert c == code as char;
    if 65 <= code <= 90 {
      assert code == 65 || code == 66 || code == 67 || code == 68 || code == 69 || code == 70 || code == 71
        || code == 72 || code == 73 || code == 74 || code == 75 || code == 76 || code == 77 || code == 78
        || code == 79 || code == 80 || code == 81 || code == 82 || code == 83 || code == 84 || code == 85
        || code == 86 || code == 87 || code == 88 || code == 89 || code == 90;
    }
  }

  lemma Digits(c: char)
    ensures '0' <= c <= '9' || c == '_' <==> c in DIGITS
  {
    var code := c as int;
    assert c == code as char;
    if 48 <= code <= 57 {
      assert code == 48 || code == 49 || code == 50 || code == 51 || code == 52 || code == 53 || code == 54
        || code == 55 || code == 56 || code == 57;
    }
  }

  /** The characters a name is made of are the letters, the digits and the underscore. */
  lemma IdentifierCharacters(c: char)
    ensures IsIdentChar(c) <==> IsNamePart(c)
  {
    SmallLetters(c);
    CapitalLetters(c);
    Digits(c);
  }

  /** So a name between two characters is replaced exactly when neither is one of these. */
  lemma ReplacedExactlyBetweenSeparators(a: char, name: string, b: char, value: string)
    requires name != [] && forall c | c in name :: IsNamePart(c)
    ensures Expand([a] + name + [b], name, value) ==
      if IsNamePart(a) || IsNamePart(b) then [a] + name + [b] else [a] + value + [b]
  {
    IdentifierCharacters(a);
    IdentifierCharacters(b);
    forall k | 0 <= k < |name| ensures IsIdentChar(name[k]) { IdentifierCharacters(name[k]); }
    hide IsIdentChar; hide IsNamePart;
    BetweenCharacters(a, name, b, value);
  }

  lemma BetweenCharacters(a: char, name: string, b: char, value: string)
    requires IsWord(name)
    ensures Expand([a] + name + [b], name, value) ==
      if IsIdentChar(a) || IsIdentChar(b) then [a] + name + [b] else [a] + value + [b]
  {
    hide IsIdentChar; hide Expand;
    var w := if IsIdentChar(b) then name + [b] else name;
    var rest := if IsIdentChar(b) then [] else [b];
    assert IsWord(w);
    assert [a] + name + [b] == [a] + (w + rest);
    if IsIdentChar(a) {
      assert IsWord([a] + w);
      assert [a] + w + rest == [a] + (w + rest);
      hide IsWord;
      WordAlone([a] + w, rest, name, value);
    } else {
      hide IsWord;
      SeparatorInFront(a, w + rest, name, value);
      WordAlone(w, rest, name, value);
      assert [a] + (value + [b]) == [a] + value + [b];
    }
  }

  lemma WordAlone(w: string, rest: string, name: string, value: string)
    requires IsWord(w) && (rest == [] || (|rest| == 1 && !IsIdentChar(rest[0])))
    ensures Expand(w + rest, name, value) == (if w == name then value else w) + rest
  {
    hide IsIdentChar; hide Expand;
    WordInFront(w, rest, name, value);
    ExpandNothing(name, value);
    if rest != [] {
      SeparatorInFront(rest[0], [], name, value);
      assert [rest[0]] + [] == rest;
    }
  }

  /** Text between separators expands on its own. */
  lemma {:induction false} ExpandSplits(a: string, c: char, b: string, name: string, value: string)
    requires !IsIdentChar(c)
    ensures Expand(a + [c] + b, name, value) == Expand(a, name, value) + [c] + Expand(b, name, value)
    decreases |a|
  {
    hide Expand; hide IsWord;
    if a == [] {
      assert a + [c] + b == [c] + b;
      SeparatorInFront(c, b, name, value);
      ExpandNothing(name, value);
    } else if Run(a) == 0 {
      ExpandSplits(a[1..], c, b, name, value);
      assert a == [a[0]] + a[1..] && a + [c] + b == [a[0]] + (a[1..] + [c] + b);
      SeparatorInFront(a[0], a[1..] + [c] + b, name, value);
      SeparatorInFront(a[0], a[1..], name, value);
    } else {
      var w, rest := a[..Run(a)], a[Run(a)..];
      RunIsWord(a);
      ExpandSplits(rest, c, b, name, value);
      assert a + [c] + b == w + (rest + [c] + b);
      WordInFront(w, rest + [c] + b, name, value);
      WordInFront(w, rest, name, value);
    }
  }

  lemma ExpandNothing(name: string, value: string)
    ensures Expand([], name, value) == []
  {
  }

  lemma ExpandStartsAlike(s: string, name: string, value: string)
    requires s != [] && Run(s) == 0
    ensures Expand(s, name, value) != [] && Expand(s, name, value)[0] == s[0]
  {
  }

  lemma RestLacks(s: string, y: string)
    requires s != [] && !HasWord(s, y)
    ensures if Run(s) == 0 then !HasWord(s[1..], y) else s[..Run(s)] != y && !HasWord(s[Run(s)..], y)
  {
  }

  /** A text without the word is not changed. */
  lemma {:induction false} NothingToExpand(s: string, name: string, value: string)
    requires !HasWord(s, name)
    ensures Expand(s, name, value) == s
    decreases |s|
  {
    hide Expand; hide IsWord; hide HasWord;
    ExpandNothing(name, value);
    if s != [] {
      RestLacks(s, name);
      if Run(s) == 0 {
        NothingToExpand(s[1..], name, value);
        SeparatorInFront(s[0], s[1..], name, value);
        assert s == [s[0]] + s[1..];
      } else {
        RunIsWord(s);
        NothingToExpand(s[Run(s)..], name, value);
        WordInFront(s[..Run(s)], s[Run(s)..], name, value);
      }
    }
  }

  /** Renaming a word to one the text does not have is undone by renaming it back. */
  lemma {:induction false} RenamingUndone(s: string, x: string, y: string)
    requires IsWord(x) && IsWord(y) && !HasWord(s, y)
    ensures Expand(Expand(s, x, y), y, x) == s
    decreases |s|
  {
    hide Expand; hide IsWord; hide HasWord;
    ExpandNothing(x, y);
    ExpandNothing(y, x);
    if s != [] {
      RestLacks(s, y);
      if Run(s) == 0 {
        RenamingUndone(s[1..], x, y);
        assert s == [s[0]] + s[1..];
        SeparatorInFront(s[0], s[1..], x, y);
        SeparatorInFront(s[0], Expand(s[1..], x, y), y, x);
      } else {
        var w, rest := s[..Run(s)], s[Run(s)..];
        RunIsWord(s);
        RenamingUndone(rest, x, y);
        WordInFront(w, rest, x, y);
        if rest != [] { ExpandStartsAlike(rest, x, y); }
        WordInFront(if w == x then y else w, Expand(rest, x, y), y, x);
      }
    }
  }
}
