/** Writing the file (lib/gcov/gcov.c, lines 77 to 170 and 277 to 317): word by word into a
buffer or onto the console, and the two ways a file gets printed. */
module GcovWriter {
  import opened Arith
  import opened Bytes
  import opened FormatNumbers
  import opened FormatSpec
  import opened FormatReader
  import opened GcovFile
  import opened GcovLayout
  import opened Prelude
  import opened GcovConsole

  /** struct out: the image, or the console. */
  class Out {
    const order: Order
    const buf: array<byte>
    const toBuf: bool
    var at: nat
    var text: string               // what the console was given
    ghost const before: string     // the console at first
    ghost var words: seq<u32>      // what was written

    ghost predicate Valid()
      reads this, buf
    {
      && at == 4 * |words|
      && (toBuf ==> at <= buf.Length && buf[..at] == AllBytes(order, words) && text == before)
      && (!toBuf ==> text == before + Hex(AllBytes(order, words), 0))
    }

    constructor (order: Order, buf: array<byte>, toBuf: bool, text: string)
      ensures Valid() && words == [] && this.order == order && this.buf == buf && this.toBuf == toBuf
      ensures before == text
    {
      this.order, this.buf, this.toBuf, this.text, before := order, buf, toBuf, text, text;
      at, words := 0, [];
    }

    /** put_word. */
    method PutWord(v: u32)
      requires Valid() && (toBuf ==> at + 4 <= buf.Length)
      modifies this`at, this`text, this`words, buf
      ensures Valid() && words == old(words) + [v] && at == old(at) + 4
    {
      hide AllBytes, Hex, WordBytes;
      ghost var done := AllBytes(order, words);
      var b := WordBytes(order, v);
      assert done + b[..0] == done;
      for k := 0 to 4
        invariant at == 4 * |words| + k && words == old(words) && |done| == 4 * |words|
        invariant toBuf ==> at + 4 - k <= buf.Length && buf[..at] == done + b[..k] && text == before
        invariant !toBuf ==> text == before + Hex(done + b[..k], 0)
      {
        if toBuf {
          buf[at] := b[k];
        } else {
          HexOne(done + b[..k], b[k]);
          text := text + HexByte(b[k]);
          if (at + 1) % 32 == 0 {
            text := text + "\n";
          }
        }
        assert done + b[..k] + [b[k]] == done + b[..k + 1];
        at := at + 1;
      }
      assert b[..4] == b;
      OneWord(order, words, v);
      words := words + [v];
    }
  }

  lemma {:induction false} OneWord(o: Order, ws: seq<u32>, v: u32)
    ensures AllBytes(o, ws + [v]) == AllBytes(o, ws) + WordBytes(o, v)
  {
    AllBytesAppend(o, ws, [v]);
    assert [v][1..] == [];
  }

  /** image_size. */
  method ComputeSize(u: Unit) returns (n: nat)
    ensures n == ImageSize(u)
  {
    n := (if BytesFormat(u.version) then 16 else 12) + 16 + 4;
    for k := 0 to |u.funcs|
      invariant n + FnSize(u, k) == ImageSize(u)
    {
      n := n + 8 + 12 + 8 + 8 * u.funcs[k].n;
    }
  }

  /** Lines 122 to 125: the largest counter. */
  method FindLargest(ctrs: seq<u64>) returns (max: u64)
    ensures max == Largest(ctrs)
  {
    max := 0;
    for k := 0 to |ctrs|
      invariant max == Largest(ctrs[..k])
    {
      assert ctrs[..k + 1][..k] == ctrs[..k];
      if ctrs[k] > max {
        max := ctrs[k];
      }
    }
    assert ctrs[..|ctrs|] == ctrs;
  }

  /** There is room in the buffer for `n` more words. */
  ghost predicate Room(o: Out, n: nat)
    reads o
  {
    o.toBuf ==> o.at + 4 * n <= o.buf.Length
  }

  /** emit: exactly the unit's file, in either destination. */
  method Emit(u: Unit, ctrs: seq<u64>, o: Out)
    requires o.Valid() && o.words == [] && UnitOk(u, ctrs)
    requires o.toBuf ==> ImageSize(u) <= o.buf.Length
    modifies o`at, o`text, o`words, o.buf
    ensures o.Valid() && o.words == FileWords(u, ctrs, 1)
    ensures FileLaid(o.words, u, ctrs, 1)
  {
    hide Encode, FnRecords, Largest, FnSize, BytesFormat, Head, FnWords, FileWords, AllBytes, Hex, ImageSize, FileLaid;
    FileIsLaid(u, ctrs, 1);
    ghost var bytes, file := BytesFormat(u.version), FileWords(u, ctrs, 1);
    FileLength(u, ctrs, 1);
    HeadIsStart(u, ctrs);
    var max := FindLargest(ctrs);
    EmitHead(u, max, o);
    for k := 0 to |u.funcs|
      invariant o.Valid() && o.words + Encode(bytes, FnRecords(u, ctrs, k)) + [0] == file
    {
      FnFirst(bytes, u, ctrs, k);
      ghost var w0, fw, rest := o.words, FnWordsAt(u, ctrs, k), Encode(bytes, FnRecords(u, ctrs, k + 1));
      FnWordsLength(u, ctrs, k);
      EmitFn(u, ctrs, k, o);
      Assoc(w0, fw, rest);
    }
    NoFnLeft(bytes, u, ctrs);
    assert o.words + [] == o.words;
    o.PutWord(0);
  }

  /** The words of the `k`-th function. */
  function FnWordsAt(u: Unit, ctrs: seq<u64>, k: nat): seq<u32>
    requires UnitOk(u, ctrs) && k < |u.funcs|
  {
    var f := u.funcs[k];
    FnWords(BytesFormat(u.version), f, ctrs[f.base..f.base + f.n])
  }

  lemma {:induction false} FnWordsLength(u: Unit, ctrs: seq<u64>, k: nat)
    requires UnitOk(u, ctrs) && k < |u.funcs|
    ensures |FnWordsAt(u, ctrs, k)| == 7 + 2 * u.funcs[k].n
  {
  }

  /** The words before the functions. */
  function Head(u: Unit, max: u64): seq<u32> {
    Header(u.version, u.stamp, u.checksum)
    + [TAG_SUMMARY, 2 * PerWord(BytesFormat(u.version)), 1, if max > 0xffff_ffff then 0xffff_ffff else max]
  }

  lemma {:induction false} HeadIsStart(u: Unit, ctrs: seq<u64>)
    requires UnitOk(u, ctrs)
    ensures FileWords(u, ctrs, 1) ==
      Head(u, Largest(ctrs)) + Encode(BytesFormat(u.version), FnRecords(u, ctrs, 0)) + [0]
  {
    var bytes, s, rs := BytesFormat(u.version), Summary(1, Largest(ctrs)), FnRecords(u, ctrs, 0);
    assert ([s] + rs)[1..] == rs;
  }

  /** Lines 126 to 134. */
  method EmitHead(u: Unit, max: u64, o: Out)
    requires o.Valid() && o.words == [] && Room(o, |Head(u, max)|)
    modifies o`at, o`text, o`words, o.buf
    ensures o.Valid() && o.words == Head(u, max)
  {
    hide AllBytes, Hex, Out.Valid;
    o.PutWord(MAGIC);
    o.PutWord(u.version);
    o.PutWord(u.stamp);
    if BytesFormat(u.version) {
      o.PutWord(u.checksum);
    }
    o.PutWord(TAG_SUMMARY);
    o.PutWord(2 * PerWord(BytesFormat(u.version)));
    o.PutWord(1);
    o.PutWord(if max > 0xffff_ffff then 0xffff_ffff else max);
  }

  lemma {:induction false} NoFnLeft(bytes: bool, u: Unit, ctrs: seq<u64>)
    requires UnitOk(u, ctrs)
    ensures Encode(bytes, FnRecords(u, ctrs, |u.funcs|)) == []
  {
  }

  /** Lines 136 to 148: one function. */
  method EmitFn(u: Unit, ctrs: seq<u64>, k: nat, o: Out)
    requires o.Valid() && UnitOk(u, ctrs) && k < |u.funcs|
    requires Room(o, 7 + 2 * u.funcs[k].n)
    modifies o`at, o`text, o`words, o.buf
    ensures o.Valid()
    ensures o.words == old(o.words) + FnWordsAt(u, ctrs, k)
  {
    hide AllBytes, Hex, CounterWords, BytesFormat, Out.Valid;
    var f := u.funcs[k];
    ghost var w0, cs := o.words, ctrs[f.base..f.base + f.n];
    var per := PerWord(BytesFormat(u.version));
    o.PutWord(TAG_FUNCTION);
    o.PutWord(3 * per);
    o.PutWord(f.ident);
    o.PutWord(f.lineno);
    o.PutWord(f.cfg);
    o.PutWord(TAG_ARCS);
    o.PutWord(2 * f.n * per);
    EmitCounters(ctrs, f, o);
  }

  /** Lines 144 to 148: its counters, low word first. */
  method EmitCounters(ctrs: seq<u64>, f: Fn, o: Out)
    requires o.Valid() && f.base + f.n <= |ctrs| && Room(o, 2 * f.n)
    modifies o`at, o`text, o`words, o.buf
    ensures o.Valid() && o.words == old(o.words) + CounterWords(ctrs[f.base..f.base + f.n])
  {
    hide AllBytes, Hex, Out.Valid;
    ghost var cs, w0 := ctrs[f.base..f.base + f.n], o.words;
    assert cs[0..] == cs;
    for c := 0 to f.n
      invariant o.Valid() && Room(o, 2 * (f.n - c))
      invariant o.words + CounterWords(cs[c..]) == w0 + CounterWords(cs)
    {
      var v := ctrs[f.base + c];
      assert cs[c] == v && cs[c..][1..] == cs[c + 1..];
      o.PutWord(v % 0x1_0000_0000);
      o.PutWord(v / 0x1_0000_0000);
    }
    assert cs[f.n..] == [];
  }

  // ----- printing a file

  /** console_open: the marker line. */
  method Open(text: string, path: string, size: nat) returns (t: string)
    requires size < 0x1_0000_0000_0000_0000
    ensures t == text + ("\n@gcda " + path + " " + Decimal(size) + "\n")
  {
    hide Digits, DigitText;
    var d := new char[24];
    AtMost22Digits(10, size);
    ghost var ds: seq<nat> := Digits(10, size);
    var k, n, more := 0, size, true;
    while more
      invariant 0 <= n && 0 <= k <= |ds| && (more ==> ds[k..] == Digits(10, n)) && (!more ==> k == |ds|)
      invariant forall j :: 0 <= j < k ==> d[j] == DigitChar(ds[j], false)
      decreases more, n
    {
      OneDigit(n);
      assert ds[k] == n % 10 && ds[k + 1..] == ds[k..][1..];
      d[k] := ('0' as int + n % 10) as char;
      k, n := k + 1, n / 10;
      more := n != 0;
    }
    t := text + "\n@gcda " + path + " ";
    ghost var before := t;
    assert ds[|ds|..] == [];
    NoDigitText();
    while k > 0
      invariant 0 <= k <= |ds| && t == before + DigitText(ds[k..], false)
      invariant forall j :: 0 <= j < |ds| ==> d[j] == DigitChar(ds[j], false)
    {
      k := k - 1;
      assert ds[k..][1..] == ds[k + 1..];
      MoreDigitText(ds[k..]);
      t := t + [d[k]];
    }
    assert ds[0..] == ds;
    t := t + "\n";
  }

  lemma {:induction false} OneDigit(n: nat)
    ensures DigitChar(n % 10, false) == ('0' as int + n % 10) as char
    ensures n / 10 == 0 ==> Digits(10, n) == [n % 10]
    ensures n / 10 != 0 ==> n / 10 < n && Digits(10, n) == [n % 10] + Digits(10, n / 10)
  {
  }

  lemma {:induction false} NoDigitText()
    ensures DigitText([], false) == ""
  {
  }

  lemma {:induction false} MoreDigitText(ds: seq<nat>)
    requires ds != [] && forall k :: 0 <= k < |ds| ==> ds[k] < 16
    ensures DigitText(ds, false) == DigitText(ds[1..], false) + [DigitChar(ds[0], false)]
  {
  }

  /** Straight to the console, the image never held (lines 296 to 302 and 311 to 317). */
  method DumpStreamed(order: Order, u: Unit, ctrs: seq<u64>, text: string) returns (t: string)
    requires UnitOk(u, ctrs) && ImageSize(u) < 0x1_0000_0000_0000_0000
    ensures t == text + Printed(u.path, Image(order, u, ctrs, 1))
  {
    hide ImageSize, FileWords, AllBytes, Hex, Decimal;
    SizeIsExact(order, u, ctrs, 1);
    var size := ComputeSize(u);
    t := Open(text, u.path, size);
    var none := new byte[0];
    var o := new Out(order, none, false, t);
    Emit(u, ctrs, o);
    t := o.text + "\n@end\n";
    PrintedParts(text, u.path, Image(order, u, ctrs, 1));
  }

  lemma {:induction false} PrintedParts(text: string, path: string, bs: seq<byte>)
    ensures text + ("\n@gcda " + path + " " + Decimal(|bs|) + "\n") + Hex(bs, 0) + "\n@end\n" ==
      text + Printed(path, bs)
  {
    hide Decimal, Hex;
  }

  /** The image in memory (lines 294 to 304). */
  method BuildImage(order: Order, u: Unit, ctrs: seq<u64>) returns (img: array<byte>)
    requires UnitOk(u, ctrs)
    ensures fresh(img) && img[..] == Image(order, u, ctrs, 1)
  {
    hide ImageSize, FileWords, AllBytes, Hex;
    SizeIsExact(order, u, ctrs, 1);
    var size := ComputeSize(u);
    img := new byte[size];
    var o := new Out(order, img, true, "");
    Emit(u, ctrs, o);
    assert img[..o.at] == img[..];
  }

  /** The image printed where there is no file system (lines 277 to 287). */
  method PrintImage(path: string, img: array<byte>, text: string) returns (t: string)
    requires img.Length < 0x1_0000_0000_0000_0000
    ensures t == text + Printed(path, img[..])
  {
    hide Hex, Decimal, HexByte;
    t := Open(text, path, img.Length);
    ghost var before := t;
    HexNone();
    for k := 0 to img.Length
      invariant t == before + Hex(img[..k], 0)
    {
      HexOne(img[..k], img[k]);
      assert img[..k] + [img[k]] == img[..k + 1];
      t := t + HexByte(img[k]);
      if (k + 1) % 32 == 0 {
        t := t + "\n";
      }
    }
    assert img[..img.Length] == img[..];
    t := t + "\n@end\n";
    PrintedParts(text, path, img[..]);
  }
}
