/** The counting and truncating output iterators, and compiled formats run into them. */
module BoundedOutput {
  import opened FormatArgs
  import opened FormatCompiler
  import opened RuntimeFormat
  import opened Wrappers

  function Min(a: nat, b: nat): nat {
    if a < b then a else b
  }

  /** The first n characters, or all of them. */
  function Taken(s: string, n: nat): string {
    s[..Min(n, |s|)]
  }

  lemma TakenGrows(s: string, c: char, n: nat)
    ensures Taken(s + [c], n) == if |s| < n then Taken(s, n) + [c] else Taken(s, n)
  {
    assert (s + [c])[..|s|] == s;
    if |s| >= n {
      assert (s + [c])[..n] == s[..n];
    }
  }

  /** A buffer whose characters from `start` on have been replaced by `kept`. */
  function Filled(b: string, start: nat, kept: string): string
    requires start + |kept| <= |b|
  {
    b[..start] + kept + b[start + |kept|..]
  }

  lemma FilledGrows(b: string, start: nat, kept: string, c: char)
    requires start + |kept| < |b|
    ensures Filled(b, start, kept)[start + |kept| := c] == Filled(b, start, kept + [c])
  {
  }

  lemma FilledOutside(b: string, start: nat, kept: string, n: nat)
    requires |kept| <= n && start + n <= |b|
    ensures var f := Filled(b, start, kept);
            |f| == |b| && forall i :: 0 <= i < |b| && !(start <= i < start + n) ==> f[i] == b[i]
  {
  }

  lemma FilledInside(b: string, start: nat, kept: string)
    requires start + |kept| <= |b|
    ensures var f := Filled(b, start, kept);
            && |f| == |b|
            && (forall i :: 0 <= i < |kept| ==> f[start + i] == kept[i])
            && forall i :: 0 <= i < |b| && !(start <= i < start + |kept|) ==> f[i] == b[i]
  {
  }

  /** `counting_iterator` */
  class CountingIterator {
    var count: nat

    constructor ()
      ensures count == 0
    {
      count := 0;
    }

    /** `copy_str` into a counting iterator only moves it. */
    method CopyStr(data: string)
      modifies this
      ensures count == old(count) + |data|
    {
      count := count + |data|;
    }
  }

  /** `truncating_iterator` over an iterator with a value type: here a pointer into an array. */
  class TruncatingPointer {
    const buf: array<char>
    const start: nat
    const limit: nat
    var out: nat
    var count: nat
    var blackhole: char
    ghost var written: string
    ghost const before: string

    /** All characters written so far are counted, and the first `limit` of them are in the array. */
    ghost predicate Valid()
      reads this, buf
    {
      && start + limit <= buf.Length == |before|
      && count == |written|
      && out == start + Min(limit, |written|)
      && buf[..] == Filled(before, start, Taken(written, limit))
    }

    constructor (buf: array<char>, start: nat, limit: nat)
      requires start + limit <= buf.Length
      ensures Valid() && written == "" && before == buf[..]
      ensures this.buf == buf && this.start == start && this.limit == limit
    {
      this.buf, this.start, this.limit := buf, start, limit;
      out, count, blackhole := start, 0, ' ';
      written, before := "", buf[..];
      new;
      assert buf[..] == Filled(before, start, "");
    }

    /** `*it = c; ++it` */
    method Put(c: char)
      requires Valid()
      modifies this, buf
      ensures Valid() && written == old(written) + [c]
    {
      TakenGrows(written, c, limit);
      ghost var was, kept := buf[..], Taken(written, limit);
      if count < limit {
        FilledGrows(before, start, kept, c);
      }
      hide Filled;
      // operator*
      if count < limit {
        buf[out] := c;
      } else {
        blackhole := c;
      }
      // operator++
      if count < limit {
        out := out + 1;
      }
      count := count + 1;
      written := written + [c];
      assert buf[..] == if |kept| < limit then was[start + |kept| := c] else was;
    }

    method CopyStr(data: string)
      requires Valid()
      modifies this, buf
      ensures Valid() && written == old(written) + data
    {
      for i := 0 to |data|
        invariant Valid() && written == old(written) + data[..i]
      {
        Put(data[i]);
        assert data[..i + 1] == data[..i] + [data[i]];
      }
      assert data[..|data|] == data;
    }
  }

  /** `truncating_iterator` over a pure output iterator: here a back inserter. */
  class TruncatingInserter {
    const limit: nat
    var sink: string
    var count: nat
    ghost var written: string

    ghost predicate Valid()
      reads this
    {
      count == |written| && sink == Taken(written, limit)
    }

    constructor (limit: nat)
      ensures Valid() && written == "" && this.limit == limit
    {
      this.limit := limit;
      sink, count, written := "", 0, "";
    }

    /** `operator=`; the other operators do nothing. */
    method Put(c: char)
      requires Valid()
      modifies this
      ensures Valid() && written == old(written) + [c]
    {
      TakenGrows(written, c, limit);
      if count < limit {
        sink := sink + [c];
      }
      count := count + 1;
      written := written + [c];
    }

    method CopyStr(data: string)
      requires Valid()
      modifies this
      ensures Valid() && written == old(written) + data
    {
      for i := 0 to |data|
        invariant Valid() && written == old(written) + data[..i]
      {
        Put(data[i]);
        assert data[..i + 1] == data[..i] + [data[i]];
      }
      assert data[..|data|] == data;
    }
  }

  // ---------- a compiled format run into each iterator; ok is false when a leaf throws ----------

  method CountInto(t: Tree, args: seq<FormatArg>, it: CountingIterator) returns (ok: bool)
    modifies it
    ensures ok == Output(t, args).Some?
    ensures ok ==> it.count == old(it.count) + |Output(t, args).value|
    decreases t
  {
    match t
    case Single(p) =>
      var text := LeafOutput(p.leaf, args);
      if text.Some? {
        it.CopyStr(text.value);
      }
      ok := text.Some?;
    case Concat(l, r) =>
      ok := CountInto(l, args, it);
      if ok {
        ok := CountInto(r, args, it);
      }
  }

  method PointInto(t: Tree, args: seq<FormatArg>, it: TruncatingPointer) returns (ok: bool)
    requires it.Valid()
    modifies it, it.buf
    ensures it.Valid() && ok == Output(t, args).Some?
    ensures ok ==> it.written == old(it.written) + Output(t, args).value
    decreases t
  {
    match t
    case Single(p) =>
      var text := LeafOutput(p.leaf, args);
      if text.Some? {
        it.CopyStr(text.value);
      }
      ok := text.Some?;
    case Concat(l, r) =>
      ok := PointInto(l, args, it);
      if ok {
        ok := PointInto(r, args, it);
      }
  }

  method InsertInto(t: Tree, args: seq<FormatArg>, it: TruncatingInserter) returns (ok: bool)
    requires it.Valid()
    modifies it
    ensures it.Valid() && ok == Output(t, args).Some?
    ensures ok ==> it.written == old(it.written) + Output(t, args).value
    decreases t
  {
    match t
    case Single(p) =>
      var text := LeafOutput(p.leaf, args);
      if text.Some? {
        it.CopyStr(text.value);
      }
      ok := text.Some?;
    case Concat(l, r) =>
      ok := InsertInto(l, args, it);
      if ok {
        ok := InsertInto(r, args, it);
      }
  }

  // ---------- the entry points ----------

  /**
   * What an unbounded format of a compiled string writes: the compiled tree's
   * output, or the run-time formatter's text where compilation falls back.
   */
  function FullOutput(s: string, args: seq<FormatArg>): Option<string>
    requires !Compile(s, args).Error?
  {
    var c := Compile(s, args);
    if c.Compiled? then Output(c.tree, args) else Format(s, args)
  }

  /** On the strings that compile faithfully or fall back, it is the run-time formatter's text. */
  lemma FullOutputIsFormat(s: string, args: seq<FormatArg>)
    requires Compilable(s, args, 0, 0, false) || Compile(s, args).UnknownFormat?
    ensures !Compile(s, args).Error? && FullOutput(s, args) == Format(s, args)
  {
    if Compilable(s, args, 0, 0, false) {
      CompiledOutputIsRuntimeOutput(s, args);
    }
  }

  /** `formatted_size` is the length of the unbounded output. */
  method FormattedSize(s: string, args: seq<FormatArg>) returns (r: Option<nat>)
    requires !Compile(s, args).Error?
    ensures var full := FullOutput(s, args);
            r == if full.Some? then Some(|full.value|) else None
  {
    var it := new CountingIterator();
    var c := Compile(s, args);
    hide Compile, Format, Output;
    var ok;
    if c.Compiled? {
      ok := CountInto(c.tree, args, it);
    } else {
      var text := Format(s, args);
      ok := text.Some?;
      if ok {
        it.CopyStr(text.value);
      }
    }
    r := if ok then Some(it.count) else None;
  }

  /** `format_to` a truncating pointer. */
  method FormatToPointer(s: string, args: seq<FormatArg>, it: TruncatingPointer) returns (ok: bool)
    requires !Compile(s, args).Error? && it.Valid()
    modifies it, it.buf
    ensures it.Valid() && ok == FullOutput(s, args).Some?
    ensures ok ==> it.written == old(it.written) + FullOutput(s, args).value
  {
    var c := Compile(s, args);
    hide Compile, Format, Output;
    if c.Compiled? {
      ok := PointInto(c.tree, args, it);
    } else {
      var text := Format(s, args);
      ok := text.Some?;
      if ok {
        it.CopyStr(text.value);
      }
    }
  }

  /**
   * `format_to_n` into memory: the first min(n, size) characters of the unbounded
   * output are stored, the iterator has moved past them, the whole size is
   * reported, and no other element changes, not even when a leaf throws.
   */
  method FormatToN(s: string, args: seq<FormatArg>, buf: array<char>, start: nat, n: nat)
    returns (ok: bool, out: nat, size: nat)
    requires !Compile(s, args).Error? && start + n <= buf.Length
    modifies buf
    ensures ok == FullOutput(s, args).Some?
    ensures ok ==> size == |FullOutput(s, args).value| && out == start + Min(n, size)
    ensures ok ==> buf[..] == Filled(old(buf[..]), start, Taken(FullOutput(s, args).value, n))
    ensures ok ==> forall i :: 0 <= i < n && i < size ==> buf[start + i] == FullOutput(s, args).value[i]
    ensures ok ==> forall i :: 0 <= i < buf.Length && !(start <= i < start + n && i - start < size) ==> buf[i] == old(buf[i])
    ensures forall i :: 0 <= i < buf.Length && !(start <= i < start + n) ==> buf[i] == old(buf[i])
  {
    hide Filled, Compile, FullOutput;
    ghost var initial := buf[..];
    var it := new TruncatingPointer(buf, start, n);
    assert it.before == initial;
    ok := FormatToPointer(s, args, it);
    out, size := it.out, it.count;
    assert ok ==> it.written == FullOutput(s, args).value;
    ghost var was, now := it.before, buf[..];
    FilledOutside(was, start, Taken(it.written, n), n);
    FilledInside(was, start, Taken(it.written, n));
    assert forall i :: 0 <= i < buf.Length ==> now[i] == buf[i] && was[i] == old(buf[i]);
  }

  /** `format_to` a truncating inserter. */
  method FormatToInserter(s: string, args: seq<FormatArg>, it: TruncatingInserter) returns (ok: bool)
    requires !Compile(s, args).Error? && it.Valid()
    modifies it
    ensures it.Valid() && ok == FullOutput(s, args).Some?
    ensures ok ==> it.written == old(it.written) + FullOutput(s, args).value
  {
    var c := Compile(s, args);
    hide Compile, Format, Output;
    if c.Compiled? {
      ok := InsertInto(c.tree, args, it);
    } else {
      var text := Format(s, args);
      ok := text.Some?;
      if ok {
        it.CopyStr(text.value);
      }
    }
  }

  /** `format_to_n` into a back inserter: the same characters and the same size as in memory. */
  method FormatToNInserted(s: string, args: seq<FormatArg>, n: nat) returns (ok: bool, sink: string, size: nat)
    requires !Compile(s, args).Error?
    ensures ok == FullOutput(s, args).Some?
    ensures ok ==> size == |FullOutput(s, args).value| && sink == FullOutput(s, args).value[..if n < size then n else size]
  {
    hide Compile, FullOutput;
    var it := new TruncatingInserter(n);
    ok := FormatToInserter(s, args, it);
    sink, size := it.sink, it.count;
    assert ok ==> it.written == FullOutput(s, args).value;
  }
}
