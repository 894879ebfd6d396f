/** The output path: `write` and `puts` poll the transmit FIFO, `printf` and `sprintf` feed from `vprintfmt`. */
module Uart {
  import opened Printf

  // ---------- newline expansion ----------

  function Expanded(c: char): string { if c == '\n' then "\n\r" else [c] }

  /** Every newline is followed by a carriage return. */
  function Expand(s: string): string {
    if s == [] then "" else Expand(s[..|s| - 1]) + Expanded(s[|s| - 1])
  }

  function Collapse(t: string): string
    decreases |t|
  {
    var n := |t|;
    if n == 0 then ""
    else if 2 <= n && t[n - 2] == '\n' && t[n - 1] == '\r' then Collapse(t[..n - 2]) + "\n"
    else Collapse(t[..n - 1]) + [t[n - 1]]
  }

  ghost predicate Returned(t: string) {
    forall i | 0 <= i < |t| :: t[i] == '\n' ==> i + 1 < |t| && t[i + 1] == '\r'
  }

  lemma {:induction false} ExpandReturns(s: string)
    ensures Returned(Expand(s)) && (s != [] ==> Expand(s) != [])
  {
    if s != [] { ExpandReturns(s[..|s| - 1]); }
  }

  lemma CollapseNewline(e: string)
    ensures Collapse(e + "\n\r") == Collapse(e) + "\n"
  {
    var t := e + "\n\r";
    assert t[..|t| - 2] == e;
  }

  lemma CollapseOther(e: string, c: char)
    requires e != [] && e[|e| - 1] == '\n' ==> c != '\r'
    ensures Collapse(e + [c]) == Collapse(e) + [c]
  {
    var t := e + [c];
    assert t[..|t| - 1] == e;
  }

  lemma CollapseExpanded(e: string, c: char)
    requires Returned(e)
    ensures Collapse(e + Expanded(c)) == Collapse(e) + [c]
  {
    if c == '\n' { CollapseNewline(e); } else { CollapseOther(e, c); }
  }

  /** Text without newlines is left as it is. */
  lemma {:induction false} ExpandPlain(s: string)
    requires '\n' !in s
    ensures Expand(s) == s
  {
    if s != [] {
      ExpandPlain(s[..|s| - 1]);
      assert s == s[..|s| - 1] + [s[|s| - 1]];
    }
  }

  /** A newline is followed by a carriage return, and its surroundings are expanded alone. */
  lemma {:induction false} ExpandNewline(s: string, t: string)
    ensures Expand(s + "\n" + t) == Expand(s) + "\n\r" + Expand(t)
    decreases |t|
  {
    if t == [] {
      assert s + "\n" + t == s + ['\n'];
      SnocExpand(s, '\n');
    } else {
      var init, c := t[..|t| - 1], t[|t| - 1];
      ExpandNewline(s, init);
      assert s + "\n" + t == (s + "\n" + init) + [c];
      SnocExpand(s + "\n" + init, c);
    }
  }

  predicate ComesBack(s: string) { Collapse(Expand(s)) == s }

  lemma CollapseSnoc(s: string)
    requires s != [] && ComesBack(s[..|s| - 1])
    ensures ComesBack(s)
  {
    var init, c := s[..|s| - 1], s[|s| - 1];
    ExpandReturns(init);
    CollapseExpanded(Expand(init), c);
    assert s == init + [c];
  }

  lemma {:induction false} AllComeBack(s: string)
    ensures ComesBack(s)
  {
    if s != [] {
      AllComeBack(s[..|s| - 1]);
      CollapseSnoc(s);
    }
  }

  /** The expansion has an exact inverse. */
  lemma CollapseExpand(s: string)
    ensures Collapse(Expand(s)) == s
  {
    AllComeBack(s);
  }

  /** The last character of a stream in which newlines are returned, as `Expanded` emitted it. */
  lemma SplitReturned(t: string) returns (u: string, c: char)
    requires Returned(t) && t != []
    ensures Returned(u) && t == u + Expanded(c)
  {
    var n := |t|;
    if 2 <= n && t[n - 2] == '\n' {
      u, c := t[..n - 2], '\n';
      ReturnedPrefix(t, n - 2);
      assert t == u + "\n\r";
    } else {
      u, c := t[..n - 1], t[n - 1];
      ReturnedPrefix(t, n - 1);
    }
  }

  lemma {:induction false} ReturnedIsExpansion(t: string)
    requires Returned(t)
    ensures Expand(Collapse(t)) == t
    decreases |t|
  {
    if t != [] {
      var u, c := SplitReturned(t);
      ReturnedIsExpansion(u);
      CollapseExpanded(u, c);
      SnocExpand(Collapse(u), c);
    }
  }

  /** A stream is an expansion exactly when each newline in it is followed by a carriage return. */
  lemma ExpandCollapse(t: string)
    ensures Expand(Collapse(t)) == t <==> Returned(t)
  {
    ExpandReturns(Collapse(t));
    if Returned(t) { ReturnedIsExpansion(t); }
  }

  lemma ReturnedPrefix(t: string, k: nat)
    requires Returned(t) && k <= |t| && (0 < k ==> t[k - 1] != '\n')
    ensures Returned(t[..k])
  {
    forall i | 0 <= i < k && t[..k][i] == '\n' ensures i + 1 < k && t[..k][i + 1] == '\r' { assert t[i] == '\n'; }
  }

  lemma SnocExpand(s: string, c: char)
    ensures Expand(s + [c]) == Expand(s) + Expanded(c)
  {
    assert (s + [c])[..|s|] == s;
  }

  // ---------- the device ----------

  ghost predicate DrainsAt(drain: nat -> nat, t: nat) { drain(t) > 0 }
  ghost predicate DrainsFrom(drain: nat -> nat, t: nat) { exists u: nat :: t <= u && DrainsAt(drain, u) }

  /** The transmitter of UART0 with a FIFO of any capacity.  Before access t up to `drain(t)` bytes leave it.
      `trace[t]` is what had been accepted after access t. */
  class Transmitter {
    const capacity: nat
    const drain: nat -> nat
    var fifo: string
    var sent: string
    var now: nat
    ghost var trace: seq<string>

    ghost predicate Valid()
      reads this
    {
      && 0 < capacity && |fifo| <= capacity
      && (forall t: nat :: DrainsFrom(drain, t))
      && |trace| == now
    }

    /** Every byte the FIFO ever took, in order. */
    function Accepted(): string
      reads this
    {
      sent + fifo
    }

    constructor (capacity: nat, drain: nat -> nat)
      requires 0 < capacity && forall t: nat :: DrainsFrom(drain, t)
      ensures Valid() && Accepted() == "" && this.capacity == capacity && this.drain == drain
    {
      this.capacity, this.drain := capacity, drain;
      fifo, sent, now, trace := "", "", 0, [];
    }

    /** What happened to the FIFO by the next access. */
    method Drain()
      requires 0 < capacity && |fifo| <= capacity
      modifies this`fifo, this`sent
      ensures Accepted() == old(Accepted())
      ensures |fifo| == if drain(now) < |old(fifo)| then |old(fifo)| - drain(now) else 0
    {
      var n := if drain(now) < |fifo| then drain(now) else |fifo|;
      assert fifo == fifo[..n] + fifo[n..];
      sent, fifo := sent + fifo[..n], fifo[n..];
    }

    /** The full flag of the transmit FIFO. */
    method Full() returns (full: bool)
      requires Valid()
      modifies this
      ensures Valid() && now == old(now) + 1 && trace == old(trace) + [Accepted()]
      ensures Accepted() == old(Accepted()) && |fifo| <= |old(fifo)|
      ensures full == (|fifo| == capacity)
      ensures drain(old(now)) > 0 ==> !full
    {
      Drain();
      full := |fifo| == capacity;
      now, trace := now + 1, trace + [Accepted()];
    }

    /** Store a byte into the FIFO; stored into a full one it is lost. */
    method Store(b: char)
      requires Valid()
      modifies this
      ensures Valid() && now == old(now) + 1 && trace == old(trace) + [Accepted()]
      ensures Accepted() == old(Accepted()) || Accepted() == old(Accepted()) + [b]
      ensures |old(fifo)| < capacity ==> Accepted() == old(Accepted()) + [b]
    {
      Drain();
      if |fifo| < capacity {
        assert sent + (fifo + [b]) == sent + fifo + [b];
        fifo := fifo + [b];
      }
      now, trace := now + 1, trace + [Accepted()];
    }

    /** From access t on, what had been accepted always lay between `before` and the present stream. */
    ghost predicate InOrderSince(t: nat, before: string)
      reads this
    {
      t <= |trace| && forall k | t <= k < |trace| :: before <= trace[k] <= Accepted()
    }

    /** Wait while the FIFO is full, then store: the byte is never lost. */
    method Put(b: char)
      requires Valid()
      modifies this
      ensures Valid() && old(trace) <= trace && Accepted() == old(Accepted()) + [b]
      ensures InOrderSince(|old(trace)|, old(Accepted()))
    {
      assert DrainsFrom(drain, now);
      ghost var u: nat :| now <= u && DrainsAt(drain, u);
      var full := Full();
      while full
        invariant Valid() && old(trace) <= trace && Accepted() == old(Accepted())
        invariant InOrderSince(|old(trace)|, old(Accepted()))
        invariant full == (|fifo| == capacity)
        invariant !full || now <= u
        decreases u - now
      {
        full := Full();
      }
      Store(b);
    }

    /** One character of `write` or `puts`: a newline is followed by a carriage return. */
    method PutExpanded(c: char)
      requires Valid()
      modifies this
      ensures Valid() && old(trace) <= trace && Accepted() == old(Accepted()) + Expanded(c)
      ensures InOrderSince(|old(trace)|, old(Accepted()))
    {
      Put(c);
      if c == '\n' {
        Put('\r');
      }
    }

    /** The next character of a text of which p are out already. */
    method PutNext(s: string, p: nat, ghost before: string)
      requires Valid() && p < |s| && Accepted() == before + Expand(s[..p])
      modifies this
      ensures Valid() && old(trace) <= trace && old(Accepted()) <= Accepted() == before + Expand(s[..p + 1])
      ensures InOrderSince(|old(trace)|, old(Accepted()))
    {
      PutExpanded(s[p]);
      assert s[..p + 1] == s[..p] + [s[p]];
      SnocExpand(s[..p], s[p]);
    }

    /** `write`: on a terminal every byte in order with newlines expanded; -1 on anything else. */
    method Write(fd: int, ptr: string, len: nat) returns (r: int)
      requires Valid() && len <= |ptr|
      modifies this
      ensures Valid() && old(trace) <= trace && InOrderSince(|old(trace)|, old(Accepted()))
      ensures Accepted() == old(Accepted()) + if fd == 1 || fd == 2 then Expand(ptr[..len]) else ""
      ensures r == if fd == 1 || fd == 2 then len else -1
    {
      if fd != 1 && fd != 2 {
        return -1;
      }
      for jj := 0 to len
        invariant Valid() && old(trace) <= trace && InOrderSince(|old(trace)|, old(Accepted()))
        invariant Accepted() == old(Accepted()) + Expand(ptr[..jj])
      {
        PutNext(ptr, jj, old(Accepted()));
      }
      r := len;
    }

    /** `puts`: the same stream from a string; unlike ISO C's it adds no newline of its own. */
    method Puts(s: CString) returns (r: int)
      requires Valid()
      modifies this
      ensures Valid() && old(trace) <= trace && InOrderSince(|old(trace)|, old(Accepted()))
      ensures Accepted() == old(Accepted()) + Expand(s) && r == 0
    {
      var p := 0;
      while At(s, p) != NUL
        invariant p <= |s|
        invariant Valid() && old(trace) <= trace && InOrderSince(|old(trace)|, old(Accepted()))
        invariant Accepted() == old(Accepted()) + Expand(s[..p])
        decreases |s| - p
      {
        PutNext(s, p, old(Accepted()));
        p := p + 1;
      }
      assert s[..p] == s;
      r := 0;
    }

    /** `putchar`: one `write` of one byte. */
    method Putchar(ch: char) returns (ok: bool)
      requires Valid()
      modifies this
      ensures Valid() && old(trace) <= trace && InOrderSince(|old(trace)|, old(Accepted()))
      ensures ok && Accepted() == old(Accepted()) + Expanded(ch)
    {
      var n := Write(1, [ch], 1);
      SnocExpand("", ch);
      assert [ch][..1] == "" + [ch];
      ok := n == 1;
    }

    method PutcharNext(out: string, i: nat, ghost before: string)
      requires Valid() && i < |out| && Accepted() == before + Expand(out[..i])
      modifies this
      ensures Valid() && old(trace) <= trace && old(Accepted()) <= Accepted() == before + Expand(out[..i + 1])
      ensures InOrderSince(|old(trace)|, old(Accepted()))
    {
      var ok := Putchar(out[i]);
      assert out[..i + 1] == out[..i] + [out[i]];
      SnocExpand(out[..i], out[i]);
    }

    /** `putchar` for each character in turn. */
    method PutAll(out: string)
      requires Valid()
      modifies this
      ensures Valid() && old(trace) <= trace && InOrderSince(|old(trace)|, old(Accepted()))
      ensures Accepted() == old(Accepted()) + Expand(out)
    {
      for i := 0 to |out|
        invariant Valid() && old(trace) <= trace && InOrderSince(|old(trace)|, old(Accepted()))
        invariant Accepted() == old(Accepted()) + Expand(out[..i])
      {
        PutcharNext(out, i, old(Accepted()));
      }
      assert out[..|out|] == out;
    }

    /** `printf`: the rendered text through `putchar`; always 0. */
    method Printf(fmt: CString, args: seq<Arg>) returns (r: int)
      requires Valid()
      modifies this
      ensures Valid() && old(trace) <= trace && InOrderSince(|old(trace)|, old(Accepted())) && r == 0
      ensures Render(fmt, 0, args).Done? ==> Accepted() == old(Accepted()) + Expand(Render(fmt, 0, args).out)
    {
      var o := Vprintfmt(fmt, args);
      r := 0;
      if o.Done? {
        PutAll(o.out);
      }
    }
  }

  /** `sprintf`: the rendered text and a NUL, nothing beyond; returns the length of the text. */
  method Sprintf(str: array<char>, fmt: CString, args: seq<Arg>) returns (r: nat)
    requires Render(fmt, 0, args).Done? ==> |Render(fmt, 0, args).out| < str.Length
    modifies str
    ensures Render(fmt, 0, args).Done? ==>
              var out := Render(fmt, 0, args).out;
              r == |out| && str[..r] == out && str[r] == NUL && str[r + 1..] == old(str[r + 1..])
  {
    var o := Vprintfmt(fmt, args);
    r := 0;
    if o.Done? {
      while r < |o.out|
        invariant r <= |o.out| && str[..r] == o.out[..r]
        invariant forall k | r <= k < str.Length :: str[k] == old(str[k])
      {
        str[r] := o.out[r];
        r := r + 1;
      }
      str[r] := NUL;
    }
  }

  /** The length of the C string at the start of a buffer. */
  function StrLen(s: string): nat {
    if s == [] || s[0] == NUL then 0 else 1 + StrLen(s[1..])
  }

  /** The buffer `sprintf` leaves holds a C string of the returned length exactly when the text has no NUL. */
  lemma {:induction false} SprintfLength(out: string, rest: string)
    ensures StrLen(out + [NUL] + rest) == |out| <==> NUL !in out
  {
    var s := out + [NUL] + rest;
    if out == [] {
      assert s[0] == NUL;
    } else if out[0] != NUL {
      assert s[1..] == out[1..] + [NUL] + rest;
      SprintfLength(out[1..], rest);
      assert out == [out[0]] + out[1..];
    } else {
      assert s[0] == NUL;
    }
  }

  /** The stream of `printf` is the newline expansion of the string of `sprintf`, which can be got back from it. */
  method PrintBoth(uart: Transmitter, str: array<char>, fmt: CString, args: seq<Arg>) returns (n: nat)
    requires uart.Valid() && Render(fmt, 0, args).Done? && |Render(fmt, 0, args).out| < str.Length
    modifies uart, str
    ensures uart.Valid() && n < str.Length && str[n] == NUL
    ensures uart.Accepted() == old(uart.Accepted()) + Expand(str[..n])
    ensures Collapse(uart.Accepted()[|old(uart.Accepted())|..]) == str[..n]
  {
    n := Sprintf(str, fmt, args);
    var zero := uart.Printf(fmt, args);
    CollapseExpand(str[..n]);
    assert uart.Accepted()[|old(uart.Accepted())|..] == Expand(str[..n]);
  }
}
