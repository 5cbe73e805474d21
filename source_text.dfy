/** `get_src_code` of the coding-club demo (identical in the C and the C++
    program): read the program's own source file into a zeroed buffer of
    SRC_READ_MAX characters, dropping line feeds and tabs, stop once
    SRC_READ_MAX - 1 characters are stored, and terminate with NUL. */
module SourceText {

  const SRC_READ_MAX: nat := 10000
  /** Most characters the buffer stores before its terminator. */
  const KEEP: nat := SRC_READ_MAX - 1

  /** The program's own source file as `fopen` and `fgetc` deliver it; each
      character stands for one byte of the file, so it is below 256. */
  datatype SourceFile = Unopenable | Opened(contents: seq<char>)

  /** The characters the reader drops. */
  predicate Skipped(c: char)
    ensures Skipped(c) ==> c as int < 0x20
  {
    c == '\n' || c == '\t'
  }

  /** The characters of `s` other than line feeds and tabs, in their order. */
  function Filter(s: seq<char>): (t: seq<char>)
    ensures |t| <= |s|
    ensures forall k :: 0 <= k < |t| ==> !Skipped(t[k])
  {
    if s == [] then []
    else Filter(s[..|s| - 1]) + (if Skipped(s[|s| - 1]) then [] else [s[|s| - 1]])
  }

  /** What the buffer holds before its terminator: the filtered text, cut to
      its first KEEP characters. */
  function Loaded(text: seq<char>): (t: seq<char>)
    ensures |t| == if |Filter(text)| < KEEP then |Filter(text)| else KEEP
    ensures t <= Filter(text)
  {
    var f := Filter(text);
    if |f| <= KEEP then f else f[..KEEP]
  }

  /** `k` NUL characters, as `calloc` leaves them. */
  function Nuls(k: nat): (z: seq<char>)
    ensures |z| == k && forall j :: 0 <= j < k ==> z[j] == '\0'
  {
    seq(k, _ => '\0')
  }

  /** `get_src_code`; `file` is what `fopen` and `fgetc` would deliver. */
  method GetSrcCode(file: SourceFile) returns (str: array?<char>)
    ensures str == null <==> file.Unopenable?
    ensures str != null ==> fresh(str) && str.Length == SRC_READ_MAX
    ensures str != null ==> str[..] == Loaded(file.contents) + Nuls(SRC_READ_MAX - |Loaded(file.contents)|)
    ensures str != null ==> |Loaded(file.contents)| < str.Length && str[|Loaded(file.contents)|] == '\0'
  {
    var buf := new char[SRC_READ_MAX](_ => '\0');
    if file.Unopenable? {
      return null;
    }
    var text := file.contents;
    var i: nat := 0;
    var k: nat := 0;
    buf[0] := '\0';
    while k < |text|
      invariant k <= |text| && i < KEEP
      invariant buf[..i] == Filter(text[..k])
      invariant forall j :: i <= j < SRC_READ_MAX ==> buf[j] == '\0'
    {
      var c := text[k];
      assert text[..k + 1][..k] == text[..k];
      k := k + 1;
      if Skipped(c) {
        continue;
      }
      buf[i] := c;
      i := i + 1;
      assert buf[..i] == buf[..i - 1] + [c];
      if i == KEEP {
        break;
      }
    }
    LoadedAtStop(text, k, i == KEEP);
    buf[i] := '\0';
    NulPadded(buf[..], i);
    str := buf;
  }

  /** Where the read loop stops, the kept characters are Loaded(text): either
      the whole file was read, or the limit was reached. */
  lemma LoadedAtStop(text: seq<char>, k: nat, full: bool)
    requires k <= |text|
    requires full ==> |Filter(text[..k])| == KEEP
    requires !full ==> k == |text| && |Filter(text[..k])| < KEEP
    ensures Loaded(text) == Filter(text[..k])
  {
    if full {
      assert text[..k] + text[k..] == text;
      FilterAppend(text[..k], text[k..]);
    } else {
      assert text[..k] == text;
    }
  }

  /** A buffer whose cells from `i` on are NUL is its first `i` characters
      followed by NULs. */
  lemma NulPadded(b: seq<char>, i: nat)
    requires i <= |b|
    requires forall j :: i <= j < |b| ==> b[j] == '\0'
    ensures b == b[..i] + Nuls(|b| - i)
  {
  }

  /** Filtering distributes over concatenation. */
  lemma {:induction false} FilterAppend(a: seq<char>, b: seq<char>)
    ensures Filter(a + b) == Filter(a) + Filter(b)
  {
    if b == [] {
      assert a + b == a;
    } else {
      var b' := b[..|b| - 1];
      assert (a + b)[..|a + b| - 1] == a + b';
      assert (a + b)[|a + b| - 1] == b[|b| - 1];
      FilterAppend(a, b');
    }
  }

  /** Text without line feeds or tabs passes through unchanged. */
  lemma {:induction false} FilterKeepsCleanText(s: seq<char>)
    requires forall k :: 0 <= k < |s| ==> !Skipped(s[k])
    ensures Filter(s) == s
  {
    if s != [] {
      FilterKeepsCleanText(s[..|s| - 1]);
    }
  }

  /** Every character other than a line feed or tab keeps its number of
      occurrences; line feeds and tabs are all gone. */
  lemma {:induction false} FilterCounts(s: seq<char>, c: char)
    ensures multiset(Filter(s))[c] == if Skipped(c) then 0 else multiset(s)[c]
  {
    if s != [] {
      var s' := s[..|s| - 1];
      assert s == s' + [s[|s| - 1]];
      FilterCounts(s', c);
    }
  }

  /** Reading stops at the limit: once KEEP characters are kept, whatever
      follows in the file does not matter. */
  lemma StopsAtLimit(a: seq<char>, b: seq<char>)
    requires |Filter(a)| >= KEEP
    ensures Loaded(a + b) == Loaded(a)
  {
    FilterAppend(a, b);
  }

  /** Dropped characters do not use up the limit. */
  lemma SkippedDoNotCount(a: seq<char>, c: char, b: seq<char>)
    requires Skipped(c)
    ensures Loaded(a + [c] + b) == Loaded(a + b)
  {
    assert (a + [c])[..|a|] == a;
    assert Filter(a + [c]) == Filter(a);
    FilterAppend(a + [c], b);
    FilterAppend(a, b);
  }
}
