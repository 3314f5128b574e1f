/** The PHP string built-ins that the request handler relies on, over byte strings. */
module PhpStrings {

  /** PHP strings are byte strings: every byte is kept as a char below 256. */
  type Byte = c: char | c as int < 256
  type Str = seq<Byte>

  /** `strpos($s, $prefix) === 0`. With PHP 8 an empty needle is found at offset 0. */
  predicate StartsWith(s: Str, prefix: Str) {
    |prefix| <= |s| && s[..|prefix|] == prefix
  }

  /** `$needle` occurs somewhere in `$s`. */
  predicate Contains(s: Str, needle: Str)
    decreases |s|
  {
    StartsWith(s, needle) || (s != [] && Contains(s[1..], needle))
  }

  /** A needle with a byte the string lacks does not occur in it. */
  lemma {:induction false} NotContainsWithout(s: Str, needle: Str, c: Byte)
    requires c in needle && c !in s
    ensures !Contains(s, needle)
    decreases |s|
  {
    if s != [] {
      NotContainsWithout(s[1..], needle, c);
    }
  }

  /** `str_replace($needle, $rep, $s)` for one non-empty needle: occurrences are
      found left to right and do not overlap; the replacement is not rescanned. */
  function ReplaceAll(s: Str, needle: Str, rep: Str): (r: Str)
    requires needle != []
    ensures !Contains(s, needle) ==> r == s
    ensures |rep| <= |needle| ==> |r| <= |s|
    decreases |s|
  {
    if s == [] then []
    else if StartsWith(s, needle) then rep + ReplaceAll(s[|needle|..], needle, rep)
    else [s[0]] + ReplaceAll(s[1..], needle, rep)
  }

  /** Deleting the occurrences of a needle that occurs shortens the string by at
      least the needle's length. */
  lemma {:induction false} ReplaceAllRemoves(s: Str, needle: Str)
    requires needle != [] && Contains(s, needle)
    ensures |ReplaceAll(s, needle, [])| <= |s| - |needle|
    decreases |s|
  {
    if !StartsWith(s, needle) {
      ReplaceAllRemoves(s[1..], needle);
    }
  }

  /** The separator of path segments. */
  const Slash: Str := "/"
  /** The two needles of the traversal strip, and the parent reference after a slash. */
  const DotDotSlash: Str := "../"
  const DotDotBackslash: Str := "..\\"
  const SlashDotDot: Str := "/.."
  const SlashDotDotSlash: Str := "/../"
  /** The parent reference, and the doubled dots that survive the strip as one. */
  const DotDot: Str := ".."
  const DoubledDots: Str := "/....//"

  /** A byte that does not start an occurrence is kept. */
  lemma ReplaceAllSkip(c: Byte, t: Str, needle: Str, rep: Str)
    requires needle != [] && !StartsWith([c] + t, needle)
    ensures ReplaceAll([c] + t, needle, rep) == [c] + ReplaceAll(t, needle, rep)
  {
    assert ([c] + t)[1..] == t;
  }

  /** An occurrence at the front is replaced and scanning resumes after it. */
  lemma ReplaceAllHit(t: Str, needle: Str, rep: Str)
    requires needle != []
    ensures ReplaceAll(needle + t, needle, rep) == rep + ReplaceAll(t, needle, rep)
  {
    assert (needle + t)[..|needle|] == needle;
    assert (needle + t)[|needle|..] == t;
  }

  lemma DotKept(t: Str)
    requires |t| >= 2 && t[1] == '.'
    ensures ReplaceAll(['.'] + t, DotDotSlash, []) == ['.'] + ReplaceAll(t, DotDotSlash, [])
  {
    assert (['.'] + t)[2] == '.';
    ReplaceAllSkip('.', t, DotDotSlash, []);
  }

  lemma SlashKept(t: Str)
    ensures ReplaceAll(['/'] + t, DotDotSlash, []) == ['/'] + ReplaceAll(t, DotDotSlash, [])
  {
    assert (['/'] + t)[0] == '/';
    ReplaceAllSkip('/', t, DotDotSlash, []);
  }

  /** The first pass of the strip over "/..../" followed by a clean tail. */
  lemma StripChain(tail: Str)
    requires ReplaceAll(tail, DotDotSlash, []) == tail
    ensures ReplaceAll(SlashDotDot + (DotDotSlash + tail), DotDotSlash, []) == SlashDotDot + tail
  {
    var u := DotDotSlash + tail;
    var v := ['.'] + u;
    var x := ['.'] + v;
    assert u[1] == '.' && v[1] == '.';
    calc {
      ReplaceAll(SlashDotDot + u, DotDotSlash, []);
    == { assert SlashDotDot == ['/'] + ['.'] + ['.'];
         assert SlashDotDot + u == ['/'] + (['.'] + (['.'] + u)); }
      ReplaceAll(['/'] + x, DotDotSlash, []);
    == { SlashKept(x); }
      ['/'] + ReplaceAll(x, DotDotSlash, []);
    == { DotKept(v); }
      ['/'] + (['.'] + ReplaceAll(v, DotDotSlash, []));
    == { DotKept(u); }
      ['/'] + (['.'] + (['.'] + ReplaceAll(u, DotDotSlash, [])));
    == { ReplaceAllHit(tail, DotDotSlash, []); assert [] + tail == tail; }
      ['/'] + (['.'] + (['.'] + tail));
    == { assert SlashDotDot == ['/', '.', '.']; }
      SlashDotDot + tail;
    }
  }

  /** `empty($s)` and `!$s` on a string: only "" and "0" are falsy. */
  predicate Falsy(s: Str) {
    s == "" || s == "0"
  }

  /** The string without its trailing slashes. */
  function TrimTrailingSlashes(s: Str): (r: Str)
    ensures |r| <= |s| && r == s[..|r|]
    ensures r == [] || r[|r| - 1] != '/'
    ensures forall j :: |r| <= j < |s| ==> s[j] == '/'
    decreases |s|
  {
    if s != [] && s[|s| - 1] == '/' then TrimTrailingSlashes(s[..|s| - 1]) else s
  }

  /** Index of the last occurrence of `c` in `s`, or -1. */
  function LastIndexOf(s: Str, c: Byte): (r: int)
    ensures -1 <= r < |s|
    ensures 0 <= r ==> s[r] == c
    ensures forall j :: r < j < |s| ==> s[j] != c
    decreases |s|
  {
    if s == [] then -1
    else if s[|s| - 1] == c then |s| - 1
    else LastIndexOf(s[..|s| - 1], c)
  }

  /** PHP `basename`: the last segment, once trailing slashes are dropped. */
  function Basename(s: Str): (r: Str)
    ensures '/' !in r
  {
    var t := TrimTrailingSlashes(s);
    var i := LastIndexOf(t, '/');
    t[i + 1..]
  }

  /** PHP `dirname`: the path without its last segment ("." when there is no
      slash, "/" when only the root is left, "" for ""). */
  function Dirname(s: Str): (r: Str)
    ensures s != [] ==> r != []
  {
    if s == [] then []
    else
      var t := TrimTrailingSlashes(s);
      if t == [] then "/"
      else
        var i := LastIndexOf(t, '/');
        if i < 0 then "."
        else
          var h := TrimTrailingSlashes(t[..i]);
          if h == [] then "/" else h
  }

  /** `basename($dir . $name)` is `$name` when `$dir` ends with a slash and the
      name is one non-empty segment: how a listing's child path gives back its name. */
  lemma BasenameOfChild(dir: Str, name: Str)
    requires dir == [] || dir[|dir| - 1] == '/'
    requires name != [] && '/' !in name
    ensures Basename(dir + name) == name
  {
    var s := dir + name;
    assert s[|s| - 1] == name[|name| - 1];
    assert TrimTrailingSlashes(s) == s;
    var i := LastIndexOf(s, '/');
    assert forall j :: |dir| <= j < |s| ==> s[j] == name[j - |dir|];
    assert i < |dir|;
    if dir != [] {
      assert s[|dir| - 1] == '/';
    }
    assert i == |dir| - 1;
    assert s[i + 1..] == name;
  }

  /** `dirname($dir . '/' . $name)` is `$dir` for a directory path that does not end with a slash. */
  lemma DirnameOfChild(dir: Str, name: Str)
    requires dir != [] && dir[|dir| - 1] != '/'
    requires name != [] && '/' !in name
    ensures Dirname(dir + Slash + name) == dir
  {
    var s := dir + Slash + name;
    assert s[|s| - 1] == name[|name| - 1];
    assert TrimTrailingSlashes(s) == s;
    var i := LastIndexOf(s, '/');
    assert forall j :: |dir| < j < |s| ==> s[j] == name[j - |dir| - 1];
    assert i <= |dir|;
    assert s[|dir|] == '/';
    assert i == |dir|;
    assert s[..i] == dir;
  }

  // ---------------------------------------------------------------------------
  // Integer casts and decimal rendering
  // ---------------------------------------------------------------------------

  const IntMax: int := 0x7fff_ffff_ffff_ffff
  const IntMin: int := -0x8000_0000_0000_0000

  predicate IsDigit(c: Byte) { '0' <= c <= '9' }

  /** The whitespace PHP skips before a numeric string. */
  predicate IsSpace(c: Byte) {
    c == ' ' || c == '\t' || c == '\n' || c == '\r' || c == '\U{0B}' || c == '\U{0C}'
  }

  function SkipSpace(s: Str): (r: Str)
    ensures |r| <= |s| && r == s[|s| - |r|..]
    ensures r == [] || !IsSpace(r[0])
    decreases |s|
  {
    if s != [] && IsSpace(s[0]) then SkipSpace(s[1..]) else s
  }

  /** The longest prefix made of decimal digits. */
  function LeadingDigits(s: Str): (r: Str)
    ensures |r| <= |s| && r == s[..|r|]
    ensures forall j :: 0 <= j < |r| ==> IsDigit(r[j])
    ensures |r| < |s| ==> !IsDigit(s[|r|])
    decreases |s|
  {
    if s != [] && IsDigit(s[0]) then [s[0]] + LeadingDigits(s[1..]) else []
  }

  /** The value of a string of decimal digits (0 for the empty string). */
  function DigitsValue(d: Str): (n: nat)
    requires forall j :: 0 <= j < |d| ==> IsDigit(d[j])
    decreases |d|
  {
    if d == [] then 0
    else
      assert IsDigit(d[|d| - 1]);
      DigitsValue(d[..|d| - 1]) * 10 + (d[|d| - 1] as int - '0' as int)
  }

  function Clamp(n: int): (r: int)
    ensures IntMin <= r <= IntMax
    ensures IntMin <= n <= IntMax ==> r == n
  {
    if n > IntMax then IntMax else if n < IntMin then IntMin else n
  }

  /** `(int)$s` on a 64-bit build: leading whitespace, an optional sign, then as many
      decimal digits as there are; anything else gives 0. Out-of-range values saturate. */
  function IntCast(s: Str): (r: int)
    ensures IntMin <= r <= IntMax
    ensures r < 0 ==> SkipSpace(s) != [] && SkipSpace(s)[0] == '-'
  {
    var t := SkipSpace(s);
    if t != [] && t[0] == '-' then Clamp(0 - DigitsValue(LeadingDigits(t[1..])) as int)
    else if t != [] && t[0] == '+' then Clamp(DigitsValue(LeadingDigits(t[1..])))
    else Clamp(DigitsValue(LeadingDigits(t)))
  }

  function DigitChar(d: nat): (c: Byte)
    requires d < 10
    ensures IsDigit(c) && c as int - '0' as int == d
  {
    ('0' as int + d) as char
  }

  /** `sprintf('%u', $n)` for a non-negative size: its decimal digits, no sign, no padding. */
  function Decimal(n: nat): (r: Str)
    ensures r != []
    ensures forall j :: 0 <= j < |r| ==> IsDigit(r[j])
  {
    if n < 10 then [DigitChar(n)] else Decimal(n / 10) + [DigitChar(n % 10)]
  }

  lemma {:induction false} DecimalValue(n: nat)
    ensures DigitsValue(Decimal(n)) == n
    decreases n
  {
    if n >= 10 {
      DecimalValue(n / 10);
      var r := Decimal(n);
      assert r[..|r| - 1] == Decimal(n / 10);
    } else {
      assert Decimal(n)[..0] == [];
    }
  }

  lemma AllDigitsLeading(d: Str)
    requires forall j :: 0 <= j < |d| ==> IsDigit(d[j])
    ensures LeadingDigits(d) == d
  {
  }

  /** Reading back a rendered size with PHP's integer cast gives the size. */
  lemma IntCastOfDecimal(n: nat)
    requires n <= IntMax
    ensures IntCast(Decimal(n)) == n
  {
    var d := Decimal(n);
    assert !IsSpace(d[0]);
    assert SkipSpace(d) == d;
    AllDigitsLeading(d);
    DecimalValue(n);
  }

  /** A string that starts with neither whitespace, a sign nor a digit casts to 0:
      "infinity" is one. */
  lemma IntCastNonNumeric(s: Str)
    requires s != [] && !IsSpace(s[0]) && !IsDigit(s[0]) && s[0] != '-' && s[0] != '+'
    ensures IntCast(s) == 0
  {
    assert SkipSpace(s) == s;
    assert LeadingDigits(s) == [];
  }

  // ---------------------------------------------------------------------------
  // Case folding, extensions, HTML escaping
  // ---------------------------------------------------------------------------

  /** `strtolower` (ASCII letters only, as in PHP 8's default "C" locale). */
  function Lower(s: Str): (r: Str)
    ensures |r| == |s|
    ensures forall j :: 0 <= j < |s| ==> r[j] == if 'A' <= s[j] <= 'Z' then (s[j] as int + 32) as char else s[j]
  {
    seq(|s|, j requires 0 <= j < |s| => if 'A' <= s[j] <= 'Z' then (s[j] as int + 32) as char else s[j])
  }

  /** `pathinfo($p, PATHINFO_EXTENSION)`: what follows the last dot of the basename, or "". */
  function Extension(p: Str): (r: Str)
    ensures '/' !in r && '.' !in r
  {
    var b := Basename(p);
    var i := LastIndexOf(b, '.');
    if i < 0 then []
    else
      b[i + 1..]
  }

  function EscapeChar(c: Byte): (r: Str)
    ensures '<' !in r && '>' !in r && '"' !in r && '\'' !in r
  {
    if c == '&' then "&amp;"
    else if c == '"' then "&quot;"
    else if c == '\'' then "&#039;"
    else if c == '<' then "&lt;"
    else if c == '>' then "&gt;"
    else [c]
  }

  /** `htmlspecialchars` with the default flags of PHP 8.1 and later: the five markup characters
      become entities, so none of `< > " '` is left in the text. */
  function HtmlSpecialChars(s: Str): (r: Str)
    ensures '<' !in r && '>' !in r && '"' !in r && '\'' !in r
    ensures (forall j :: 0 <= j < |s| ==> s[j] != '&' && s[j] != '<' && s[j] != '>' && s[j] != '"' && s[j] != '\'') ==> r == s
    decreases |s|
  {
    if s == [] then [] else EscapeChar(s[0]) + HtmlSpecialChars(s[1..])
  }
}
