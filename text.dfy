/**
 * String handling the graph builder relies on: the whitespace class of
 * JavaScript regular expressions, the canonical key of an entity label
 * (`label.replace(/\s+/g, '_')`), lower-casing and substring search for
 * the node search, and the decimal rendering of a percentage.
 */
module Text {

  /** The characters the JavaScript class `\s` matches: the ECMAScript
      WhiteSpace and LineTerminator characters. */
  predicate IsSpace(c: char) {
    || c == ' ' || c == '\t' || c == '\n' || c == '\U{000B}' || c == '\U{000C}' || c == '\r'
    || c == '\U{00A0}' || c == '\U{1680}' || ('\U{2000}' <= c <= '\U{200A}')
    || c == '\U{2028}' || c == '\U{2029}' || c == '\U{202F}' || c == '\U{205F}'
    || c == '\U{3000}' || c == '\U{FEFF}'
  }

  predicate NoSpace(s: string) {
    forall i :: 0 <= i < |s| ==> !IsSpace(s[i])
  }

  predicate AllSpace(s: string) {
    forall i :: 0 <= i < |s| ==> IsSpace(s[i])
  }

  /** The canonical key of a label: every maximal run of whitespace is
      replaced by one underscore, nothing else changes
      (`label.replace(/\s+/g, '_')`). */
  function Canon(s: string): string {
    Collapse(s, false)
  }

  /** `Canon` with the scanning state: `inRun` holds when the character
      before `s` was whitespace, whose run already produced its underscore. */
  function Collapse(s: string, inRun: bool): string {
    if s == [] then []
    else if IsSpace(s[0]) then
      (if inRun then Collapse(s[1..], true) else "_" + Collapse(s[1..], true))
    else [s[0]] + Collapse(s[1..], false)
  }

  /** The rewrite leaves no whitespace and never lengthens a label. */
  lemma {:induction false} CollapseNoSpace(s: string, inRun: bool)
    ensures NoSpace(Collapse(s, inRun))
    ensures |Collapse(s, inRun)| <= |s|
  {
    if s != [] {
      CollapseNoSpace(s[1..], IsSpace(s[0]));
    }
  }

  /** A label without whitespace is its own key, so "A_B" keys as itself. */
  lemma {:induction false} CanonWithoutSpace(s: string)
    requires NoSpace(s)
    ensures Canon(s) == s
  {
    if s != [] {
      assert NoSpace(s[1..]);
      CanonWithoutSpace(s[1..]);
    }
  }

  /** The rest of a whitespace run adds nothing to the key. */
  lemma {:induction false} CollapseRunTail(w: string, y: string)
    requires AllSpace(w)
    requires y == [] || !IsSpace(y[0])
    ensures Collapse(w + y, true) == Canon(y)
  {
    if w == [] {
      assert w + y == y;
    } else {
      assert (w + y)[0] == w[0] && (w + y)[1..] == w[1..] + y;
      CollapseRunTail(w[1..], y);
    }
  }

  /** Whether the scan is inside a whitespace run after reading `a`. */
  function EndsInRun(a: string, inRun: bool): bool {
    if a == [] then inRun else IsSpace(a[|a| - 1])
  }

  /** What the scan emits for one character. */
  function Lead(c: char, inRun: bool): string {
    if !IsSpace(c) then [c] else if inRun then [] else "_"
  }

  lemma CollapseCons(s: string, inRun: bool)
    requires s != []
    ensures Collapse(s, inRun) == Lead(s[0], inRun) + Collapse(s[1..], IsSpace(s[0]))
  {
  }

  lemma EndsInRunCons(a: string, inRun: bool)
    requires a != []
    ensures EndsInRun(a[1..], IsSpace(a[0])) == EndsInRun(a, inRun)
  {
    if a[1..] != [] {
      assert a[1..][|a[1..]| - 1] == a[|a| - 1];
    }
  }

  /** The scan of a concatenation is the scan of each part, the second
      starting in the state the first ends in. */
  lemma {:induction false} CollapseAppend(a: string, b: string, inRun: bool)
    ensures Collapse(a + b, inRun) == Collapse(a, inRun) + Collapse(b, EndsInRun(a, inRun))
    decreases |a|
  {
    if a == [] {
      assert a + b == b;
    } else {
      CollapseAppend(a[1..], b, IsSpace(a[0]));
      CollapseAppendStep(a, b, inRun);
    }
  }

  /** One step of `CollapseAppend`: from the tail of `a` to `a`. */
  lemma CollapseAppendStep(a: string, b: string, inRun: bool)
    requires a != []
    requires var t, next := a[1..], IsSpace(a[0]);
      Collapse(t + b, next) == Collapse(t, next) + Collapse(b, EndsInRun(t, next))
    ensures Collapse(a + b, inRun) == Collapse(a, inRun) + Collapse(b, EndsInRun(a, inRun))
  {
    var t, next := a[1..], IsSpace(a[0]);
    ConsAppend(a, b);
    EndsInRunCons(a, inRun);
    CollapseCons(a + b, inRun);
    CollapseCons(a, inRun);
    AppendAssoc(Lead(a[0], inRun), Collapse(t, next), Collapse(b, EndsInRun(a, inRun)));
  }

  lemma ConsAppend(a: string, b: string)
    requires a != []
    ensures (a + b)[0] == a[0] && (a + b)[1..] == a[1..] + b
  {
  }

  lemma AppendAssoc(x: string, y: string, z: string)
    ensures x + (y + z) == (x + y) + z
  {
  }

  /** A whitespace run between two non-whitespace parts becomes exactly one
      underscore, whatever its length: "A  B", "A B" and "A_B" share a key. */
  lemma CollapseRun(x: string, w: string, y: string, inRun: bool)
    requires w != [] && AllSpace(w)
    requires x == [] || !IsSpace(x[|x| - 1])
    requires y == [] || !IsSpace(y[0])
    ensures Collapse(x + w + y, inRun) ==
      Collapse(x, inRun) + (if x == [] && inRun then "" else "_") + Canon(y)
  {
    assert x + w + y == x + (w + y);
    CollapseAppend(x, w + y, inRun);
    assert (w + y)[0] == w[0] && (w + y)[1..] == w[1..] + y;
    CollapseRunTail(w[1..], y);
  }

  lemma CanonRun(x: string, w: string, y: string)
    requires w != [] && AllSpace(w)
    requires x == [] || !IsSpace(x[|x| - 1])
    requires y == [] || !IsSpace(y[0])
    ensures Canon(x + w + y) == Canon(x) + "_" + Canon(y)
  {
    CollapseRun(x, w, y, false);
  }

  /** Canonicalising twice changes nothing. */
  lemma CanonIdempotent(s: string)
    ensures Canon(Canon(s)) == Canon(s)
  {
    CollapseNoSpace(s, false);
    CanonWithoutSpace(Canon(s));
  }

  function LowerChar(c: char): char {
    if 'A' <= c <= 'Z' then (c as int - 'A' as int + 'a' as int) as char else c
  }

  /** Lower-casing, restricted to the ASCII letters. */
  function Lower(s: string): (r: string)
    ensures |r| == |s|
    ensures forall i :: 0 <= i < |s| ==> r[i] == LowerChar(s[i])
  {
    seq(|s|, i requires 0 <= i < |s| => LowerChar(s[i]))
  }

  lemma LowerIdempotent(s: string)
    ensures Lower(Lower(s)) == Lower(s)
  {
  }

  /** `needle` occurs in `hay` as a contiguous block (JavaScript `includes`). */
  predicate Contains(hay: string, needle: string)
    decreases |hay|
  {
    needle <= hay || (hay != [] && Contains(hay[1..], needle))
  }

  /** The index-based reading of `Contains`. */
  lemma ContainsAt(hay: string, needle: string)
    ensures Contains(hay, needle) <==>
      exists i :: 0 <= i <= |hay| - |needle| && needle <= hay[i..]
  {
    if Contains(hay, needle) {
      ContainsSomewhere(hay, needle);
    }
    if exists i :: 0 <= i <= |hay| - |needle| && needle <= hay[i..] {
      var i :| 0 <= i <= |hay| - |needle| && needle <= hay[i..];
      ContainsAtIndex(hay, needle, i);
    }
  }

  lemma {:induction false} ContainsSomewhere(hay: string, needle: string)
    requires Contains(hay, needle)
    ensures exists i :: 0 <= i <= |hay| - |needle| && needle <= hay[i..]
    decreases |hay|
  {
    if needle <= hay {
      assert hay[0..] == hay;
    } else {
      ContainsSomewhere(hay[1..], needle);
      var i :| 0 <= i <= |hay[1..]| - |needle| && needle <= hay[1..][i..];
      DropDrop(hay, i);
      assert needle <= hay[i + 1..];
    }
  }

  lemma {:induction false} ContainsAtIndex(hay: string, needle: string, i: nat)
    requires i <= |hay| - |needle| && needle <= hay[i..]
    ensures Contains(hay, needle)
    decreases i
  {
    if i == 0 {
      assert hay[0..] == hay;
    } else {
      DropDrop(hay, i - 1);
      ContainsAtIndex(hay[1..], needle, i - 1);
    }
  }

  lemma DropDrop(s: string, i: nat)
    requires i < |s|
    ensures s[1..][i..] == s[i + 1..]
  {
  }

  predicate IsDigit(c: char) {
    '0' as int <= c as int <= '9' as int
  }

  function DigitChar(d: nat): (c: char)
    requires d < 10
    ensures IsDigit(c) && c as int - '0' as int == d
  {
    ('0' as int + d) as char
  }

  /** The decimal rendering of a natural number, as JavaScript's
      template literals print an integer-valued number. */
  function NatToString(n: nat): (s: string)
    ensures s != [] && forall i :: 0 <= i < |s| ==> IsDigit(s[i])
    ensures |s| > 1 ==> s[0] != '0'
  {
    if n < 10 then [DigitChar(n)] else NatToString(n / 10) + [DigitChar(n % 10)]
  }

  /** The value of a string of decimal digits. */
  function DigitsValue(s: string): nat
    requires forall i :: 0 <= i < |s| ==> IsDigit(s[i])
  {
    if s == [] then 0
    else
      var last := s[|s| - 1];
      assert IsDigit(last);
      DigitsValue(s[..|s| - 1]) * 10 + (last as int - '0' as int)
  }

  /** Reading back the rendering gives the number. */
  lemma {:induction false} NatToStringRoundTrip(n: nat)
    ensures DigitsValue(NatToString(n)) == n
  {
    if n >= 10 {
      var s := NatToString(n);
      assert s[..|s| - 1] == NatToString(n / 10);
      NatToStringRoundTrip(n / 10);
    }
  }
}
