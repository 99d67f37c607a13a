/**
 Text streams: words and integers separated by blanks, as formatted stream output and input handle them.
 */
module CatalogText {
  import opened Common

  predicate IsBlank(c: char) {
    c == ' ' || c == '\n' || c == '\t' || c == '\r' || c == '\U{000B}' || c == '\U{000C}'
  }

  ghost predicate Blank(s: string) {
    forall c <- s :: IsBlank(c)
  }

  /** Where a word ends: at a blank or at the end of the text. */
  ghost predicate Ends(s: string) {
    s == "" || IsBlank(s[0])
  }

  ghost predicate IsWord(w: string) {
    w != "" && forall c <- w :: !IsBlank(c)
  }

  function Skip(s: string): string {
    if s != "" && IsBlank(s[0]) then Skip(s[1..]) else s
  }

  /** The longest prefix without blanks. */
  function Prefix(s: string): string {
    if s == "" || IsBlank(s[0]) then "" else [s[0]] + Prefix(s[1..])
  }

  lemma {:induction false} PrefixLength(s: string)
    ensures |Prefix(s)| <= |s|
  {
    if s != "" && !IsBlank(s[0]) {
      PrefixLength(s[1..]);
    }
  }

  function ReadWord(s: string): Option<(string, string)> {
    var t := Skip(s);
    var w := Prefix(t);
    PrefixLength(t);
    if w == "" then None else Some((w, t[|w|..]))
  }

  lemma {:induction false} SkipBlanks(b: string, s: string)
    requires Blank(b) && (s == "" || !IsBlank(s[0]))
    ensures Skip(b + s) == s
  {
    if b == "" {
      assert b + s == s;
    } else {
      assert IsBlank(b[0]) && (b + s)[1..] == b[1..] + s;
      SkipBlanks(b[1..], s);
    }
  }

  lemma {:induction false} PrefixIsWord(w: string, s: string)
    requires (forall c <- w :: !IsBlank(c)) && Ends(s)
    ensures Prefix(w + s) == w
  {
    if w == "" {
      assert w + s == s;
    } else {
      assert !IsBlank(w[0]) && (w + s)[1..] == w[1..] + s;
      PrefixIsWord(w[1..], s);
    }
  }

  /** A word is read back, whatever blanks come before it. */
  lemma WordBack(b: string, w: string, s: string)
    requires Blank(b) && IsWord(w) && Ends(s)
    ensures ReadWord(b + w + s) == Some((w, s))
  {
    assert b + w + s == b + (w + s);
    SkipBlanks(b, w + s);
    PrefixIsWord(w, s);
  }

  // ---- Integers -----------------------------------------------------------------------------------------

  function DigitChar(d: nat): (c: char)
    requires d < 10
    ensures !IsBlank(c) && c != '-'
  {
    "0123456789"[d]
  }

  function DigitValue(c: char): Option<nat> {
    if '0' <= c <= '9' then Some((c - '0') as nat) else None
  }

  function NatText(n: nat): (w: string)
    ensures IsWord(w) && w[0] != '-'
  {
    if n < 10 then [DigitChar(n)] else NatText(n / 10) + [DigitChar(n % 10)]
  }

  function IntText(i: int): (w: string)
    ensures IsWord(w)
  {
    if i < 0 then "-" + NatText(-i) else NatText(i)
  }

  function NatOf(w: string): Option<nat> {
    if w == "" then None
    else
      var n := |w| - 1;
      var d := DigitValue(w[n]);
      if d.None? || d.value >= 10 then None
      else if n == 0 then d
      else
        var init := NatOf(w[..n]);
        if init.None? then None else Some(10 * init.value + d.value)
  }

  lemma {:induction false} NatBack(n: nat)
    ensures NatOf(NatText(n)) == Some(n)
  {
    if n >= 10 {
      NatBack(n / 10);
      assert NatText(n)[..|NatText(n)| - 1] == NatText(n / 10);
    }
  }

  function ReadInt(s: string): Option<(int, string)> {
    var w := ReadWord(s);
    if w.None? then None
    else
      var (t, rest) := w.value;
      var n := if t != "" && t[0] == '-' then NatOf(t[1..]) else NatOf(t);
      if n.None? then None else Some((if t[0] == '-' then -(n.value as int) else n.value as int, rest))
  }

  lemma IntBack(b: string, i: int, s: string)
    requires Blank(b) && Ends(s)
    ensures ReadInt(b + IntText(i) + s) == Some((i, s))
  {
    WordBack(b, IntText(i), s);
    NatBack(if i < 0 then -i else i);
    assert i < 0 ==> IntText(i)[1..] == NatText(-i);
  }

  // ---- Lists --------------------------------------------------------------------------------------------

  /** The texts one after the other, each after its blanks. */
  function Spread(gaps: seq<string>, texts: seq<string>): string
    requires |gaps| == |texts|
  {
    if texts == [] then ""
    else Spread(gaps[..|texts| - 1], texts[..|texts| - 1]) + gaps[|texts| - 1] + texts[|texts| - 1]
  }

  lemma {:induction false} SpreadFirst(gaps: seq<string>, texts: seq<string>)
    requires |gaps| == |texts| > 0
    ensures Spread(gaps, texts) == gaps[0] + texts[0] + Spread(gaps[1..], texts[1..])
  {
    var n := |texts| - 1;
    if n > 0 {
      SpreadFirst(gaps[..n], texts[..n]);
      assert gaps[..n][1..] == gaps[1..][..n - 1] && texts[..n][1..] == texts[1..][..n - 1];
    }
  }

  function ReadMany<T>(n: nat, s: string, read: string -> Option<(T, string)>): Option<(seq<T>, string)> {
    if n == 0 then Some(([], s))
    else
      var first := read(s);
      if first.None? then None
      else
        var more := ReadMany(n - 1, first.value.1, read);
        if more.None? then None else Some(([first.value.0] + more.value.0, more.value.1))
  }

  /** Reads `n` items one by one. */
  method ReadLoop<T>(n: nat, s: string, read: string -> Option<(T, string)>) returns (r: Option<(seq<T>, string)>)
    ensures r == ReadMany(n, s, read)
  {
    var xs, rest: string := [], s;
    ghost var whole := ReadMany(n, s, read);
    assert whole.Some? ==> xs + whole.value.0 == whole.value.0;
    for i := 0 to n
      invariant whole == Prepend(xs, ReadMany(n - i, rest, read))
    {
      var next := read(rest);
      if next.None? {
        return None;
      }
      PrependOne(xs, next.value.0, ReadMany(n - i - 1, next.value.1, read));
      xs, rest := xs + [next.value.0], next.value.1;
    }
    assert xs + [] == xs;
    r := Some((xs, rest));
  }

  ghost function Prepend<T>(xs: seq<T>, r: Option<(seq<T>, string)>): Option<(seq<T>, string)> {
    if r.None? then None else Some((xs + r.value.0, r.value.1))
  }

  lemma PrependOne<T>(xs: seq<T>, x: T, r: Option<(seq<T>, string)>)
    ensures Prepend(xs, if r.None? then None else Some(([x] + r.value.0, r.value.1))) == Prepend(xs + [x], r)
  {
    assert r.Some? ==> xs + ([x] + r.value.0) == xs + [x] + r.value.0;
  }

  /** The reader gives `x` back from its text, whatever blanks come before. */
  ghost predicate GivesBack<T(!new)>(read: string -> Option<(T, string)>, text: string, x: T) {
    forall b, s :: Blank(b) && Ends(s) ==> read(b + text + s) == Some((x, s))
  }

  /** A list of texts is read back. */
  lemma {:induction false} ManyBack<T(!new)>(gaps: seq<string>, texts: seq<string>, xs: seq<T>,
                                      read: string -> Option<(T, string)>, s: string)
    requires |gaps| == |texts| == |xs| && Ends(s)
    requires forall i :: 0 <= i < |gaps| ==> gaps[i] != "" && Blank(gaps[i])
    requires forall i :: 0 <= i < |xs| ==> GivesBack(read, texts[i], xs[i])
    ensures ReadMany(|xs|, Spread(gaps, texts) + s, read) == Some((xs, s))
    ensures Ends(Spread(gaps, texts) + s)
  {
    if xs == [] {
      assert "" + s == s;
    } else {
      var more := Spread(gaps[1..], texts[1..]) + s;
      ManyBack(gaps[1..], texts[1..], xs[1..], read, s);
      SpreadFirst(gaps, texts);
      assert Spread(gaps, texts) + s == gaps[0] + texts[0] + more;
      assert GivesBack(read, texts[0], xs[0]);
      assert read(gaps[0] + texts[0] + more) == Some((xs[0], more));
      assert IsBlank(gaps[0][0]) && (gaps[0] + texts[0] + more)[0] == gaps[0][0];
      assert xs == [xs[0]] + xs[1..];
    }
  }
}
