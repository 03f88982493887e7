/**
 * The shader embedding script: every compiled shader becomes a C byte array
 * in one header, wrapped in an include guard derived from the output name.
 * Reading and writing files is not modelled; each input is a (file name,
 * contents) pair and the header is returned as text.
 */
module Bin2C {
  import opened Wrappers

  // ----------------------------------------------------------- path names

  /** Path separators of the Windows flavour of `os.path` the D3D12 build runs under. */
  predicate IsSep(c: char) { c == '/' || c == '\\' }

  /** What follows the last separator of `path`. */
  function AfterLastSep(path: string): (r: string)
    ensures forall i :: 0 <= i < |r| ==> !IsSep(r[i])
    ensures |r| <= |path| && path[|path| - |r|..] == r
    ensures |r| < |path| ==> IsSep(path[|path| - |r| - 1])
    decreases |path|
  {
    if path == [] then []
    else if IsSep(path[|path| - 1]) then []
    else
      var init := path[..|path| - 1];
      var r := AfterLastSep(init);
      SuffixExtend(path, r);
      NoSepAppend(r, path[|path| - 1]);
      r + [path[|path| - 1]]
  }

  lemma NoSepAppend(r: string, c: char)
    requires !IsSep(c) && forall i :: 0 <= i < |r| ==> !IsSep(r[i])
    ensures forall i :: 0 <= i < |r + [c]| ==> !IsSep((r + [c])[i])
  {
    forall i | 0 <= i < |r + [c]| ensures !IsSep((r + [c])[i]) {
      if i < |r| {
        assert (r + [c])[i] == r[i];
      }
    }
  }

  /** A suffix of all but the last character, extended by the last character, is a suffix of the whole. */
  lemma SuffixExtend(path: string, r: string)
    requires |path| > 0 && |r| < |path| && path[..|path| - 1][|path| - 1 - |r|..] == r
    ensures path[|path| - |r| - 1..] == r + [path[|path| - 1]]
    ensures |r| + 1 < |path| ==> path[|path| - |r| - 2] == path[..|path| - 1][|path| - 1 - |r| - 1]
  {
    var t := path[|path| - |r| - 1..];
    assert |t| == |r| + 1;
    forall i | 0 <= i < |t| ensures t[i] == (r + [path[|path| - 1]])[i] {
      if i < |r| {
        assert t[i] == path[..|path| - 1][|path| - 1 - |r| + i];
      }
    }
  }

  /** A drive prefix: a colon as the second character ("C:"). */
  predicate HasDrive(path: string) { |path| >= 2 && path[1] == ':' }

  /**
   * `os.path.basename` of the Windows flavour: the drive prefix is split off
   * first, then what follows the last separator is kept.
   */
  function Basename(path: string): (r: string)
    ensures forall i :: 0 <= i < |r| ==> !IsSep(r[i])
    ensures |r| <= |path| && path[|path| - |r|..] == r
    ensures HasDrive(path) ==> |r| <= |path| - 2
    ensures |r| < |path| ==> IsSep(path[|path| - |r| - 1]) || (HasDrive(path) && |r| == |path| - 2)
  {
    if HasDrive(path) then
      var rest := path[2..];
      var r := AfterLastSep(rest);
      assert path[|path| - |r|..] == rest[|rest| - |r|..];
      r
    else AfterLastSep(path)
  }

  /** A name after a directory and a separator is its own base name, with or without a drive prefix. */
  lemma BasenameOfJoin(drive: string, dir: string, sep: char, name: string)
    requires drive == [] || (|drive| == 2 && drive[1] == ':')
    requires drive == [] ==> !HasDrive(dir + [sep] + name)
    requires IsSep(sep) && forall i :: 0 <= i < |name| ==> !IsSep(name[i])
    ensures Basename(drive + dir + [sep] + name) == name
    ensures drive != [] ==> Basename(drive + name) == name
  {
    BasenameAfterSep(drive + dir + [sep] + name, |drive + dir|, name);
    if drive != [] {
      BasenameAfterDrive(drive + name, name);
    }
  }

  /** A separator-free name after a separator at position k is the base name. */
  lemma BasenameAfterSep(path: string, k: nat, name: string)
    requires k < |path| && IsSep(path[k]) && path[k + 1..] == name
    requires HasDrive(path) ==> k >= 2
    requires forall i :: 0 <= i < |name| ==> !IsSep(name[i])
    ensures Basename(path) == name
  {
    var r := Basename(path);
    SuffixStopsAtSep(path, r, k);
    SuffixKeepsTail(path, r, |name|, if HasDrive(path) then |path| - 2 else |path|);
    assert r == path[|path| - |name|..];
  }

  /** A separator-free name right after a drive prefix is the base name. */
  lemma BasenameAfterDrive(path: string, name: string)
    requires HasDrive(path) && path[2..] == name
    requires forall i :: 0 <= i < |name| ==> !IsSep(name[i])
    ensures Basename(path) == name
  {
    var r := Basename(path);
    SuffixKeepsTail(path, r, |name|, |path| - 2);
    assert r == path[|path| - |name|..];
  }

  /** A separator-free suffix of `s` starts after any separator at position k. */
  lemma SuffixStopsAtSep(s: string, r: string, k: nat)
    requires |r| <= |s| && s[|s| - |r|..] == r && forall i :: 0 <= i < |r| ==> !IsSep(r[i])
    requires k < |s| && IsSep(s[k])
    ensures |r| < |s| - k
  {
  }

  /**
   * A suffix of `s` that ends only at a separator, or at length `stop`, is at
   * least n long when the last n characters hold no separator and n <= stop.
   */
  lemma SuffixKeepsTail(s: string, r: string, n: nat, stop: int)
    requires |r| <= |s| && n <= |s| && n <= stop
    requires |r| < |s| ==> IsSep(s[|s| - |r| - 1]) || |r| == stop
    requires forall i :: |s| - n <= i < |s| ==> !IsSep(s[i])
    ensures |r| >= n
  {
  }

  /** "C:foo.h" names foo.h on drive C. */
  lemma BasenameDriveRelative()
    ensures Basename("C:foo.h") == "foo.h"
  {
    BasenameOfJoin("C:", "", '/', "foo.h");
    assert "C:" + "foo.h" == "C:foo.h";
  }

  /** A directory part is dropped. */
  lemma BasenameDropsDirectory()
    ensures Basename("out/vs.h") == "vs.h"
  {
    BasenameOfJoin([], "out", '/', "vs.h");
    assert [] + "out" + ['/'] + "vs.h" == "out/vs.h";
  }

  /** A backslash after the drive is a separator too. */
  lemma BasenameDriveRoot()
    ensures Basename("C:\\ps.h") == "ps.h"
  {
    BasenameOfJoin("C:", "", '\\', "ps.h");
    assert "C:" + "" + ['\\'] + "ps.h" == "C:\\ps.h";
  }

  /** Index of the last '.' in `s`, if any. */
  function LastDot(s: string): (r: Option<nat>)
    ensures r.Some? ==> r.value < |s| && s[r.value] == '.' && forall i :: r.value < i < |s| ==> s[i] != '.'
    ensures r.None? ==> forall i :: 0 <= i < |s| ==> s[i] != '.'
    decreases |s|
  {
    if s == [] then None
    else if s[|s| - 1] == '.' then Some(|s| - 1)
    else LastDot(s[..|s| - 1])
  }

  predicate AllDots(s: string) { forall i :: 0 <= i < |s| ==> s[i] == '.' }

  /**
   * `os.path.splitext` of a base name: the extension starts at the last dot,
   * unless only dots precede it (".profile" has no extension).
   */
  function SplitExt(name: string): (r: (string, string))
    ensures r.0 + r.1 == name
    ensures r.1 == [] || (r.1[0] == '.' && forall i :: 1 <= i < |r.1| ==> r.1[i] != '.')
    ensures r.1 != [] ==> !AllDots(r.0)
    ensures r.1 == [] && LastDot(name).Some? ==> AllDots(name[..LastDot(name).value])
  {
    match LastDot(name)
    case None => (name, [])
    case Some(d) =>
      if AllDots(name[..d]) then (name, [])
      else (name[..d], name[d..])
  }

  function Stem(path: string): string { SplitExt(Basename(path)).0 }

  /** `str.upper` on ASCII letters. */
  function Upper(s: string): (r: string)
    ensures |r| == |s|
    ensures forall i :: 0 <= i < |s| ==> r[i] == (if 'a' <= s[i] <= 'z' then (s[i] as int - 32) as char else s[i])
  {
    seq(|s|, i requires 0 <= i < |s| => if 'a' <= s[i] <= 'z' then (s[i] as int - 32) as char else s[i])
  }

  /** `str.replace(".", "_")`. */
  function DotsToUnderscores(s: string): (r: string)
    ensures |r| == |s|
    ensures forall i :: 0 <= i < |s| ==> r[i] == (if s[i] == '.' then '_' else s[i])
  {
    seq(|s|, i requires 0 <= i < |s| => if s[i] == '.' then '_' else s[i])
  }

  /**
   * The include guard: the upper-cased output stem between underscores, with
   * dots made underscores. The replacement runs after the underscores are
   * added, which is the same as running it on the stem alone.
   */
  function Guard(output: string): (g: string)
    ensures |g| >= 2 && g[0] == '_' && g[|g| - 1] == '_'
    ensures forall i :: 0 <= i < |g| ==> g[i] != '.' && !IsLower(g[i])
    ensures g[1..|g| - 1] == DotsToUnderscores(Upper(Stem(output)))
  {
    var inner := DotsToUnderscores(Upper(Stem(output)));
    GuardChars(Stem(output));
    Wrap(inner);
    "_" + inner + "_"
  }

  lemma Wrap(inner: string)
    requires forall i :: 0 <= i < |inner| ==> inner[i] != '.' && !IsLower(inner[i])
    ensures var g := "_" + inner + "_";
      g[1..|g| - 1] == inner && forall i :: 0 <= i < |g| ==> g[i] != '.' && !IsLower(g[i])
  {
    var g := "_" + inner + "_";
    assert forall i :: 1 <= i < |g| - 1 ==> g[i] == inner[i - 1];
  }

  predicate IsLower(c: char) { 'a' <= c <= 'z' }

  lemma GuardChars(s: string)
    ensures forall i :: 0 <= i < |s| ==> DotsToUnderscores(Upper(s))[i] != '.' && !IsLower(DotsToUnderscores(Upper(s))[i])
  {
    var u := Upper(s);
    assert forall i :: 0 <= i < |s| ==> !IsLower(u[i]);
  }

  // --------------------------------------------------------- hex and text

  /** An upper-case hex digit, as the `X` format writes it. */
  function HexDigit(d: nat): (c: char)
    requires d < 16
    ensures IsHexDigit(c) && HexValue(c) == d
  {
    if d < 10 then ('0' as int + d) as char else ('A' as int + d - 10) as char
  }

  predicate IsHexDigit(c: char) { '0' <= c <= '9' || 'A' <= c <= 'F' }

  function HexValue(c: char): (v: nat)
    ensures v < 16
  {
    if '0' <= c <= '9' then c as int - '0' as int
    else if 'A' <= c <= 'F' then c as int - 'A' as int + 10
    else 0
  }

  /** The byte a pair of hex digits spells, high nibble first. */
  function HexByte(hi: char, lo: char): bv8
  {
    (HexValue(hi) * 16 + HexValue(lo)) as bv8
  }

  /** `f"0x{byte:02X}"`: two upper-case hex digits, high nibble first. */
  function Hex(b: bv8): (r: string)
    ensures |r| == 4 && r[0] == '0' && r[1] == 'x'
    ensures IsHexDigit(r[2]) && IsHexDigit(r[3])
    ensures HexByte(r[2], r[3]) == b
  {
    "0x" + [HexDigit((b as int) / 16), HexDigit((b as int) % 16)]
  }

  /** The bytes written for position i: four spaces at a row start, the hex token, a newline at a row end. */
  function Token(i: nat, b: bv8): string
  {
    (if i % 12 == 0 then "    " else "") + Hex(b) + ", " + (if (i + 1) % 12 == 0 then "\n" else "")
  }

  /** The rows of hex for `data`, whose first byte has index `start`. */
  function Rows(data: seq<bv8>, start: nat): string
    decreases |data|
  {
    if data == [] then [] else Token(start, data[0]) + Rows(data[1..], start + 1)
  }

  /** Reads back "0xHH, " tokens, skipping spaces and newlines; None on anything else. */
  function ParseRows(s: string): Option<seq<bv8>>
    decreases |s|
  {
    if s == [] then Some([])
    else if s[0] == ' ' || s[0] == '\n' then ParseRows(s[1..])
    else if |s| >= 6 && s[0] == '0' && s[1] == 'x' && IsHexDigit(s[2]) && IsHexDigit(s[3]) && s[4] == ',' && s[5] == ' ' then
      match ParseRows(s[6..])
      case None => None
      case Some(rest) => Some([HexByte(s[2], s[3])] + rest)
    else None
  }

  predicate Blank(ws: string) { forall i :: 0 <= i < |ws| ==> ws[i] == ' ' || ws[i] == '\n' }

  lemma {:induction false} SkipBlank(ws: string, s: string)
    requires Blank(ws)
    ensures ParseRows(ws + s) == ParseRows(s)
    decreases |ws|
  {
    if ws != [] {
      assert ws + s != [] && (ws + s)[0] == ws[0];
      assert ParseRows(ws + s) == ParseRows((ws + s)[1..]);
      assert (ws + s)[1..] == ws[1..] + s;
      SkipBlank(ws[1..], s);
    } else {
      assert ws + s == s;
    }
  }

  function Prepend(b: bv8, r: Option<seq<bv8>>): Option<seq<bv8>>
  {
    match r
    case None => None
    case Some(bs) => Some([b] + bs)
  }

  lemma HexDecodes(b: bv8, rest: string)
    ensures ParseRows(Hex(b) + ", " + rest) == Prepend(b, ParseRows(rest))
  {
    var h := Hex(b);
    var s := h + ", " + rest;
    assert s[..4] == h && s[4] == ',' && s[5] == ' ' && s[6..] == rest;
  }

  lemma TokenDecodes(i: nat, b: bv8, rest: string)
    ensures ParseRows(Token(i, b) + rest) == Prepend(b, ParseRows(rest))
  {
    var pre: string := if i % 12 == 0 then "    " else "";
    var post: string := if (i + 1) % 12 == 0 then "\n" else "";
    var tok := Hex(b) + ", ";
    assert Blank(pre) && Blank(post);
    assert Token(i, b) == pre + tok + post;
    assert Token(i, b) + rest == pre + (tok + (post + rest));
    SkipBlank(pre, tok + (post + rest));
    HexDecodes(b, post + rest);
    SkipBlank(post, rest);
  }

  /** The hex rows decode back to exactly the input bytes. */
  lemma {:induction false} RowsRoundTrip(data: seq<bv8>, start: nat)
    ensures ParseRows(Rows(data, start)) == Some(data)
    decreases |data|
  {
    if data != [] {
      RowsRoundTrip(data[1..], start + 1);
      TokenDecodes(start, data[0], Rows(data[1..], start + 1));
      assert [data[0]] + data[1..] == data;
      assert Rows(data, start) == Token(start, data[0]) + Rows(data[1..], start + 1);
    }
  }

  function CountNewlines(s: string): nat { multiset(s)['\n'] }

  lemma TokenNewlines(i: nat, b: bv8)
    ensures CountNewlines(Token(i, b)) == (i + 1) / 12 - i / 12
  {
    var pre: string := if i % 12 == 0 then "    " else "";
    var post: string := if (i + 1) % 12 == 0 then "\n" else "";
    var tok := Hex(b) + ", ";
    assert Token(i, b) == pre + tok + post;
    HexHasNoNewline(b);
    IndentHasNoNewline(i);
    assert multiset(Token(i, b)) == multiset(pre) + multiset(tok) + multiset(post);
    RowEnd(i);
  }

  lemma HexHasNoNewline(b: bv8)
    ensures multiset(Hex(b) + ", ")['\n'] == 0
  {
    var h := Hex(b);
    assert h + ", " == ['0', 'x', h[2], h[3], ',', ' '];
    assert h[2] != '\n' && h[3] != '\n';
  }

  lemma IndentHasNoNewline(i: nat)
    ensures multiset(if i % 12 == 0 then "    " else "")['\n'] == 0
  {
    if i % 12 == 0 {
      assert multiset("    ") == multiset{' ', ' ', ' ', ' '};
    }
  }

  lemma RowEnd(i: nat)
    ensures (i + 1) / 12 - i / 12 == if (i + 1) % 12 == 0 then 1 else 0
  {
  }

  /** A newline ends every full row of twelve bytes and nothing else. */
  lemma {:induction false} RowsNewlines(data: seq<bv8>, start: nat)
    ensures CountNewlines(Rows(data, start)) == (start + |data|) / 12 - start / 12
    decreases |data|
  {
    if data != [] {
      RowsNewlines(data[1..], start + 1);
      TokenNewlines(start, data[0]);
      assert Rows(data, start) == Token(start, data[0]) + Rows(data[1..], start + 1);
      assert multiset(Rows(data, start)) == multiset(Token(start, data[0])) + multiset(Rows(data[1..], start + 1));
    }
  }

  // ------------------------------------------------------------ decimals

  function DigitChar(d: nat): (c: char)
    requires d < 10
    ensures '0' <= c <= '9' && c as int - '0' as int == d
  {
    ('0' as int + d) as char
  }

  /** `str(n)`: decimal digits, no leading zero. */
  function Decimal(n: nat): (s: string)
    ensures |s| >= 1 && (s[0] == '0' ==> n == 0)
    ensures forall i :: 0 <= i < |s| ==> '0' <= s[i] <= '9'
    decreases n
  {
    if n < 10 then [DigitChar(n)] else Decimal(n / 10) + [DigitChar(n % 10)]
  }

  function ParseDecimal(s: string): nat
    decreases |s|
  {
    if s == [] then 0 else ParseDecimal(s[..|s| - 1]) * 10 + (if '0' <= s[|s| - 1] <= '9' then s[|s| - 1] as int - '0' as int else 0)
  }

  /** The size line's number reads back as the byte count. */
  lemma {:induction false} DecimalRoundTrip(n: nat)
    ensures ParseDecimal(Decimal(n)) == n
    decreases n
  {
    if n >= 10 {
      DecimalRoundTrip(n / 10);
      var s := Decimal(n);
      assert s[..|s| - 1] == Decimal(n / 10);
    }
  }

  // ------------------------------------------------------------ the header

  /** One array: declaration line, hex rows, closing brace, size variable. */
  function ArrayText(fileName: string, data: seq<bv8>): string
  {
    var name := Stem(fileName);
    "unsigned char " + name + "[] = {\n" + Rows(data, 0) + "};\n\n"
    + "unsigned int " + name + "_size = " + Decimal(|data|) + ";\n\n"
  }

  function Concat(parts: seq<string>): string
    decreases |parts|
  {
    if parts == [] then [] else parts[0] + Concat(parts[1..])
  }

  /** The array text of each input, in input order. */
  function Parts(inputs: seq<(string, seq<bv8>)>): (r: seq<string>)
    ensures |r| == |inputs| && forall k :: 0 <= k < |inputs| ==> r[k] == ArrayText(inputs[k].0, inputs[k].1)
  {
    seq(|inputs|, k requires 0 <= k < |inputs| => ArrayText(inputs[k].0, inputs[k].1))
  }

  function Arrays(inputs: seq<(string, seq<bv8>)>): (r: string)
  {
    Concat(Parts(inputs))
  }

  /** The parts of a prefix or a suffix of the inputs are the same prefix or suffix of their parts. */
  lemma PartsSlice(inputs: seq<(string, seq<bv8>)>, k: nat)
    requires k <= |inputs|
    ensures Parts(inputs[..k]) == Parts(inputs)[..k]
    ensures Parts(inputs[k..]) == Parts(inputs)[k..]
  {
    PartsPrefix(inputs, k);
    PartsSuffix(inputs, k);
  }

  lemma PartsPrefix(inputs: seq<(string, seq<bv8>)>, k: nat)
    requires k <= |inputs|
    ensures Parts(inputs[..k]) == Parts(inputs)[..k]
  {
    var l, r := Parts(inputs[..k]), Parts(inputs)[..k];
    forall n | 0 <= n < |l| ensures l[n] == r[n] {
      assert inputs[..k][n] == inputs[n];
    }
  }

  lemma PartsSuffix(inputs: seq<(string, seq<bv8>)>, k: nat)
    requires k <= |inputs|
    ensures Parts(inputs[k..]) == Parts(inputs)[k..]
  {
    var l, r := Parts(inputs[k..]), Parts(inputs)[k..];
    forall n | 0 <= n < |l| ensures l[n] == r[n] {
      assert inputs[k..][n] == inputs[k + n];
    }
  }

  lemma Regroup(o: string, a: string, t: string, b: string, c: string)
    ensures o + (a + t + b) + c == o + a + t + b + c
  {
  }

  lemma RegroupPair(o: string, a: string, t: string, m: string, u: string, b: string, c: string)
    ensures o + (a + t + m) + u + b + c == o + a + t + m + u + b + c
  {
  }

  lemma PrefixAndSuffix(a: string, b: string, c: string)
    ensures |a + b + c| >= |a| + |c|
    ensures (a + b + c)[..|a|] == a && (a + b + c)[|a + b + c| - |c|..] == c
  {
  }

  /** The two guard lines that open the header, followed by a blank line. */
  function Opening(g: string): string { "#ifndef " + g + "\n#define " + g + "\n\n" }

  /** The guard line that closes the header. */
  function Closing(g: string): string { "#endif // " + g + "\n" }

  /** `convert_to_c_header`: the guard lines, each input's array in order, the closing guard line. */
  function ConvertToCHeader(inputs: seq<(string, seq<bv8>)>, output: string): (text: string)
    ensures var g := Guard(output);
      var open := "#ifndef " + g + "\n#define " + g + "\n\n";
      var close := "#endif // " + g + "\n";
      |text| >= |open| + |close| && text[..|open|] == open && text[|text| - |close|..] == close
  {
    var g := Guard(output);
    PrefixAndSuffix(Opening(g), Arrays(inputs), Closing(g));
    Opening(g) + Arrays(inputs) + Closing(g)
  }

  /** The arrays text splits around input k into the arrays before it, its own array, and the arrays after it. */
  lemma ArraysSplit(inputs: seq<(string, seq<bv8>)>, k: nat)
    requires k < |inputs|
    ensures Arrays(inputs) == Arrays(inputs[..k]) + ArrayText(inputs[k].0, inputs[k].1) + Arrays(inputs[k + 1..])
  {
    ConcatSplit(Parts(inputs), k);
    PartsSlice(inputs, k);
    PartsSlice(inputs, k + 1);
  }

  /** The arrays before input k split around an earlier input j. */
  lemma ArraysBefore(inputs: seq<(string, seq<bv8>)>, j: nat, k: nat)
    requires j < k <= |inputs|
    ensures Arrays(inputs[..k]) == Arrays(inputs[..j]) + ArrayText(inputs[j].0, inputs[j].1) + Arrays(inputs[j + 1..k])
  {
    var pre := inputs[..k];
    ArraysSplit(pre, j);
    assert pre[..j] == inputs[..j];
    assert pre[j + 1..] == inputs[j + 1..k];
  }

  /**
   * The whole header, for any input k: the opening guard, the arrays of the
   * inputs before k, input k's array, the arrays of the inputs after it, the
   * closing guard.
   */
  lemma HeaderLayout(inputs: seq<(string, seq<bv8>)>, output: string, k: nat)
    requires k < |inputs|
    ensures ConvertToCHeader(inputs, output)
      == Opening(Guard(output)) + Arrays(inputs[..k]) + ArrayText(inputs[k].0, inputs[k].1)
         + Arrays(inputs[k + 1..]) + Closing(Guard(output))
  {
    ArraysSplit(inputs, k);
    var g := Guard(output);
    Regroup(Opening(g), Arrays(inputs[..k]), ArrayText(inputs[k].0, inputs[k].1), Arrays(inputs[k + 1..]), Closing(g));
  }

  /**
   * Inputs keep their command-line order: for j < k, input j's array comes
   * first and only the arrays of the inputs strictly between them separate
   * the two.
   */
  lemma HeaderOrder(inputs: seq<(string, seq<bv8>)>, output: string, j: nat, k: nat)
    requires j < k < |inputs|
    ensures ConvertToCHeader(inputs, output)
      == Opening(Guard(output)) + Arrays(inputs[..j]) + ArrayText(inputs[j].0, inputs[j].1)
         + Arrays(inputs[j + 1..k]) + ArrayText(inputs[k].0, inputs[k].1)
         + Arrays(inputs[k + 1..]) + Closing(Guard(output))
  {
    HeaderLayout(inputs, output, k);
    ArraysBefore(inputs, j, k);
    var g := Guard(output);
    RegroupPair(Opening(g), Arrays(inputs[..j]), ArrayText(inputs[j].0, inputs[j].1), Arrays(inputs[j + 1..k]),
      ArrayText(inputs[k].0, inputs[k].1), Arrays(inputs[k + 1..]), Closing(g));
  }

  /** The array of every input is embedded, with its rows decoding to the file's bytes and its size line to the count. */
  lemma ArraysEmbedEachInput(inputs: seq<(string, seq<bv8>)>, k: nat)
    requires k < |inputs|
    ensures exists before: string, after: string ::
      Arrays(inputs) == before + ArrayText(inputs[k].0, inputs[k].1) + after
    ensures ParseRows(Rows(inputs[k].1, 0)) == Some(inputs[k].1)
    ensures ParseDecimal(Decimal(|inputs[k].1|)) == |inputs[k].1|
  {
    ConcatSplit(Parts(inputs), k);
    RowsRoundTrip(inputs[k].1, 0);
    DecimalRoundTrip(|inputs[k].1|);
  }

  lemma {:induction false} ConcatSplit(parts: seq<string>, k: nat)
    requires k < |parts|
    ensures Concat(parts) == Concat(parts[..k]) + parts[k] + Concat(parts[k + 1..])
    decreases k
  {
    if k == 0 {
      assert parts[..0] == [];
      assert parts[1..] == parts[k + 1..];
    } else {
      ConcatSplit(parts[1..], k - 1);
      assert parts[1..][..k - 1] == parts[..k][1..];
      assert parts[1..][k - 1 + 1..] == parts[k + 1..];
      assert parts[..k][0] == parts[0];
    }
  }

  // ------------------------------------------------------------ the CLI

  /**
   * The command line: at least four entries with "-o" second to last; the
   * inputs are everything between the script name and "-o", the output is
   * the last entry. Anything else prints the usage and exits with status 1.
   */
  function ParseArgs(argv: seq<string>): (r: Option<(seq<string>, string)>)
    ensures r.Some? <==> |argv| >= 4 && argv[|argv| - 2] == "-o"
    ensures r.Some? ==> argv == argv[..1] + r.value.0 + ["-o", r.value.1]
    ensures r.Some? ==> |r.value.0| == |argv| - 3 >= 1
  {
    if |argv| < 4 || argv[|argv| - 2] != "-o" then None
    else
      var inputs := argv[1..|argv| - 2];
      assert argv == argv[..1] + inputs + ["-o", argv[|argv| - 1]];
      Some((inputs, argv[|argv| - 1]))
  }
}
