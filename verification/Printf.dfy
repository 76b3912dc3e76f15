/**
 The format interpreter of libc/stdio/printf.c, which emits literal text in chunks, against a meaning of
 the format that goes a character at a time.
 */
module Printf {

  const INT_MAX: nat := 0x7FFF_FFFF

  /** A C string, without its terminating NUL. */
  type CString = s: string | '\0' !in s witness ""

  datatype Arg = CharArg(c: char) | StringArg(s: CString)

  predicate StartsWith(f: string, c: char, d: char) {
    |f| >= 2 && f[0] == c && f[1] == d
  }

  /** The arguments are those the conversions ask for; anything else is undefined in C. */
  predicate Fits(f: string, args: seq<Arg>)
    decreases |f|
  {
    if f == "" then true
    else if f[0] != '%' then Fits(f[1..], args)
    else if StartsWith(f, '%', '%') then Fits(f[2..], args)
    else if StartsWith(f, '%', 'c') then args != [] && args[0].CharArg? && Fits(f[2..], args[1..])
    else if StartsWith(f, '%', 's') then args != [] && args[0].StringArg? && Fits(f[2..], args[1..])
    else true
  }

  /** The meaning of a format; an unknown conversion prints itself and everything after it verbatim. */
  function Render(f: string, args: seq<Arg>): string
    requires Fits(f, args)
    decreases |f|
  {
    if f == "" then ""
    else if f[0] != '%' then [f[0]] + Render(f[1..], args)
    else if StartsWith(f, '%', '%') then "%" + Render(f[2..], args)
    else if StartsWith(f, '%', 'c') then [args[0].c] + Render(f[2..], args[1..])
    else if StartsWith(f, '%', 's') then args[0].s + Render(f[2..], args[1..])
    else f
  }

  lemma LiteralStep(f: string, args: seq<Arg>)
    requires f != "" && f[0] != '%'
    ensures Fits(f, args) <==> Fits(f[1..], args)
    ensures Fits(f, args) ==> Render(f, args) == [f[0]] + Render(f[1..], args)
  {
  }

  /** A stretch of text without conversions is rendered as it stands. */
  lemma {:induction false} LiteralRun(f: string, n: nat, args: seq<Arg>)
    requires n <= |f| && (forall i :: 0 <= i < n ==> f[i] != '%') && Fits(f, args)
    ensures Fits(f[n..], args) && Render(f, args) == f[..n] + Render(f[n..], args)
    decreases n
  {
    hide Fits, Render;
    if n == 0 {
      assert f[0..] == f;
    } else {
      LiteralStep(f, args);
      LiteralRun(f[1..], n - 1, args);
      assert f[1..][n - 1..] == f[n..];
      assert f[..n] == [f[0]] + f[1..][..n - 1];
    }
  }

  /** Every percent sign doubled. */
  function Escape(s: string): string {
    if s == "" then "" else (if s[0] == '%' then "%%" else [s[0]]) + Escape(s[1..])
  }

  /** Printing an escaped text prints the text. */
  lemma {:induction false} EscapeRoundTrip(s: string, args: seq<Arg>)
    ensures Fits(Escape(s), args) && Render(Escape(s), args) == s
    decreases |s|
  {
    if s != "" {
      EscapeRoundTrip(s[1..], args);
      var e := Escape(s);
      if s[0] == '%' {
        assert e[2..] == Escape(s[1..]) && StartsWith(e, '%', '%');
      } else {
        assert e[1..] == Escape(s[1..]);
      }
      assert s == [s[0]] + s[1..];
    }
  }

  // ---------------------------------------------------------------- formats made of pieces

  /** What a caller wants to print: text, a character argument or a string argument. */
  datatype Piece = Text(t: string) | Character(c: char) | Str(s: CString)

  /** The format for the pieces, text escaped, the arguments for it, and the output that is wanted. */
  function Format(ps: seq<Piece>): string {
    if ps == [] then "" else
    (match ps[0] case Text(t) => Escape(t) case Character(_) => "%c" case Str(_) => "%s") + Format(ps[1..])
  }

  function Arguments(ps: seq<Piece>): seq<Arg> {
    if ps == [] then [] else
    (match ps[0] case Text(_) => [] case Character(c) => [CharArg(c)] case Str(s) => [StringArg(s)])
    + Arguments(ps[1..])
  }

  function Output(ps: seq<Piece>): string {
    if ps == [] then "" else
    (match ps[0] case Text(t) => t case Character(c) => [c] case Str(s) => s) + Output(ps[1..])
  }

  /** An escaped text in front of a format is printed in front of what the format prints. */
  lemma {:induction false} EscapedPrefix(t: string, f: string, args: seq<Arg>)
    ensures Fits(Escape(t) + f, args) <==> Fits(f, args)
    ensures Fits(f, args) ==> Render(Escape(t) + f, args) == t + Render(f, args)
    decreases |t|
  {
    hide Fits, Render, StartsWith;
    if t == "" {
      assert Escape(t) + f == f;
    } else {
      EscapedPrefix(t[1..], f, args);
      EscapeUnfolds(t, f);
      if t[0] == '%' {
        DoubledStep(Escape(t[1..]) + f, args);
      } else {
        PlainStep(t[0], Escape(t[1..]) + f, args);
      }
      if Fits(f, args) {
        TextUnfolds(t, Render(f, args));
      }
    }
  }

  lemma EscapeUnfolds(t: string, f: string)
    requires t != ""
    ensures Escape(t) + f == (if t[0] == '%' then "%%" else [t[0]]) + (Escape(t[1..]) + f)
  {
  }

  lemma TextUnfolds(t: string, r: string)
    requires t != ""
    ensures t + r == [t[0]] + (t[1..] + r)
  {
  }

  lemma DoubledStep(rest: string, args: seq<Arg>)
    ensures Fits("%%" + rest, args) <==> Fits(rest, args)
    ensures Fits(rest, args) ==> Render("%%" + rest, args) == "%" + Render(rest, args)
  {
    assert ("%%" + rest)[2..] == rest;
  }

  lemma PlainStep(c: char, rest: string, args: seq<Arg>)
    requires c != '%'
    ensures Fits([c] + rest, args) <==> Fits(rest, args)
    ensures Fits(rest, args) ==> Render([c] + rest, args) == [c] + Render(rest, args)
  {
    assert ([c] + rest)[1..] == rest;
  }

  /** Printing the format for any pieces, with its arguments, prints exactly these pieces, in order. */
  lemma {:induction false} PiecesArePrinted(ps: seq<Piece>)
    ensures Fits(Format(ps), Arguments(ps)) && Render(Format(ps), Arguments(ps)) == Output(ps)
    decreases |ps|
  {
    if ps != [] {
      var f, args := Format(ps[1..]), Arguments(ps[1..]);
      PiecesArePrinted(ps[1..]);
      match ps[0]
      case Text(t) =>
        EscapedPrefix(t, f, args);
        assert Arguments(ps) == args;
      case Character(c) =>
        assert ("%c" + f)[2..] == f && StartsWith("%c" + f, '%', 'c');
        assert ([CharArg(c)] + args)[1..] == args;
      case Str(s) =>
        assert ("%s" + f)[2..] == f && StartsWith("%s" + f, '%', 's');
        assert ([StringArg(s)] + args)[1..] == args;
    }
  }

  /** An unknown conversion behind an escaped text, or a single sign at the end, is printed with all that follows. */
  lemma UnknownConversionIsPrinted(t: string, rest: string, args: seq<Arg>)
    requires rest == "" || rest[0] !in {'%', 'c', 's'}
    ensures Fits(Escape(t) + ("%" + rest), args) && Render(Escape(t) + ("%" + rest), args) == t + ("%" + rest)
  {
    EscapedPrefix(t, "%" + rest, args);
  }

  // ---------------------------------------------------------------- the code

  /** print: putchar on unsigned bytes never yields EOF, so it always succeeds. */
  method PrintBytes(emitted: string, data: string) returns (r: string)
    ensures r == emitted + data
  {
    r := emitted;
    var i := 0;
    while i < |data|
      invariant 0 <= i <= |data| && r == emitted + data[..i]
    {
      r := r + [data[i]];
      i := i + 1;
    }
  }

  /** The end of the literal chunk that starts at pos: the next percent sign after it, or the end. */
  method ChunkEnd(format: string, pos: nat) returns (amount: nat)
    requires pos < |format|
    ensures 1 <= amount <= |format| - pos && forall i :: pos < i < pos + amount ==> format[i] != '%'
    ensures pos + amount < |format| ==> format[pos + amount] == '%'
  {
    amount := 1;
    while pos + amount < |format| && format[pos + amount] != '%'
      invariant 1 <= amount <= |format| - pos && forall i :: pos < i < pos + amount ==> format[i] != '%'
    {
      amount := amount + 1;
    }
  }

  lemma PercentStep(f: string, args: seq<Arg>)
    requires StartsWith(f, '%', '%') && Fits(f, args)
    ensures Fits(f[2..], args) && Render(f, args) == "%" + Render(f[2..], args)
  {
  }

  lemma IsDoubled(f: string)
    requires |f| >= 2 && f[0] == '%' && f[1] == '%'
    ensures StartsWith(f, '%', '%')
  {
  }

  /** A literal chunk at pos, which may be the second sign of a doubled percent, is its own rendering. */
  lemma ChunkRenders(format: string, at: nat, pos: nat, amount: nat, args: seq<Arg>)
    requires 1 <= amount && pos + amount <= |format| && forall i :: pos < i < pos + amount ==> format[i] != '%'
    requires (pos == at && format[at] != '%') || (pos == at + 1 && format[at] == '%' && format[pos] == '%')
    requires Fits(format[at..], args)
    ensures Fits(format[pos + amount..], args)
    ensures Render(format[at..], args) == format[pos..pos + amount] + Render(format[pos + amount..], args)
  {
    hide Fits, Render, StartsWith;
    FirstOfChunk(format, at, pos, args);
    RestOfChunk(format, pos, amount, args);
    ChunkSplits(format, pos, amount, Render(format[pos + amount..], args));
  }

  lemma FirstOfChunk(format: string, at: nat, pos: nat, args: seq<Arg>)
    requires at <= pos < |format| && Fits(format[at..], args)
    requires (pos == at && format[at] != '%') || (pos == at + 1 && format[at] == '%' && format[pos] == '%')
    ensures Fits(format[pos + 1..], args)
    ensures Render(format[at..], args) == [format[pos]] + Render(format[pos + 1..], args)
  {
    hide Fits, Render, StartsWith;
    TailOfTail(format, at, pos + 1 - at);
    if pos == at {
      LiteralStep(format[at..], args);
    } else {
      IsDoubled(format[at..]);
      PercentStep(format[at..], args);
    }
  }

  lemma RestOfChunk(format: string, pos: nat, amount: nat, args: seq<Arg>)
    requires 1 <= amount && pos + amount <= |format| && forall i :: pos < i < pos + amount ==> format[i] != '%'
    requires Fits(format[pos + 1..], args)
    ensures Fits(format[pos + amount..], args)
    ensures Render(format[pos + 1..], args) == format[pos + 1..][..amount - 1] + Render(format[pos + amount..], args)
  {
    hide Fits, Render, StartsWith;
    var rest := format[pos + 1..];
    assert forall i :: 0 <= i < amount - 1 ==> rest[i] == format[pos + 1 + i];
    TailOfTail(format, pos + 1, amount - 1);
    LiteralRun(rest, amount - 1, args);
  }

  lemma TailOfTail(s: string, i: nat, j: nat)
    requires i + j <= |s|
    ensures s[i..][j..] == s[i + j..]
  {
  }

  lemma ChunkSplits(s: string, pos: nat, amount: nat, tail: string)
    requires 1 <= amount && pos + amount <= |s|
    ensures s[pos..pos + amount] + tail == [s[pos]] + (s[pos + 1..][..amount - 1] + tail)
  {
    assert s[pos..pos + amount] == [s[pos]] + s[pos + 1..][..amount - 1];
  }

  lemma CharStep(format: string, at: nat, args: seq<Arg>, next: nat)
    requires at + 2 <= |format| && format[at] == '%' && format[at + 1] == 'c'
    requires next <= |args| && Fits(format[at..], args[next..])
    ensures next < |args| && args[next].CharArg? && Fits(format[at + 2..], args[next + 1..])
    ensures Render(format[at..], args[next..]) == [args[next].c] + Render(format[at + 2..], args[next + 1..])
  {
    var f, a := format[at..], args[next..];
    assert StartsWith(f, '%', 'c') && f[2..] == format[at + 2..];
    assert a[1..] == args[next + 1..];
  }

  lemma StringStep(format: string, at: nat, args: seq<Arg>, next: nat)
    requires at + 2 <= |format| && format[at] == '%' && format[at + 1] == 's'
    requires next <= |args| && Fits(format[at..], args[next..])
    ensures next < |args| && args[next].StringArg? && Fits(format[at + 2..], args[next + 1..])
    ensures Render(format[at..], args[next..]) == args[next].s + Render(format[at + 2..], args[next + 1..])
  {
    var f, a := format[at..], args[next..];
    assert StartsWith(f, '%', 's') && f[2..] == format[at + 2..];
    assert a[1..] == args[next + 1..];
  }

  lemma VerbatimStep(f: string, args: seq<Arg>)
    requires f != "" && f[0] == '%' && Fits(f, args)
    requires !StartsWith(f, '%', '%') && !StartsWith(f, '%', 'c') && !StartsWith(f, '%', 's')
    ensures Render(f, args) == f
  {
  }

  lemma Advance(whole: string, emitted: string, chunk: string, rest: string)
    requires whole == emitted + (chunk + rest)
    ensures whole == emitted + chunk + rest && |whole| >= |emitted| + |chunk|
    ensures chunk != "" ==> emitted < whole
  {
  }

  lemma NothingLeft(args: seq<Arg>)
    ensures Fits("", args) && Render("", args) == ""
  {
  }

  /**
   printf.  It returns the number of characters emitted, all of the format's meaning, and fails exactly
   when that would exceed INT_MAX, having then emitted a proper prefix that still fits.
   */
  method Printf(format: CString, args: seq<Arg>) returns (written: int, emitted: string)
    requires Fits(format, args)
    ensures written == -1 <==> |Render(format, args)| > INT_MAX
    ensures written != -1 ==> written == |Render(format, args)| && emitted == Render(format, args)
    ensures written == -1 ==> emitted < Render(format, args) && |emitted| <= INT_MAX
  {
    hide Fits, Render;
    written := 0;
    emitted := "";
    var pos := 0;
    var next := 0;
    ghost var whole := Render(format, args);
    assert format[0..] == format && args[0..] == args;
    while pos < |format|
      invariant 0 <= pos <= |format| && 0 <= next <= |args| && Fits(format[pos..], args[next..])
      invariant whole == emitted + Render(format[pos..], args[next..])
      invariant written == |emitted| <= INT_MAX
      decreases |format| - pos
    {
      var maxrem := INT_MAX - written;
      ghost var at := pos;
      if format[pos] != '%' || (pos + 1 < |format| && format[pos + 1] == '%') {
        if format[pos] == '%' {
          pos := pos + 1;
        }
        var amount := ChunkEnd(format, pos);
        ChunkRenders(format, at, pos, amount, args[next..]);
        Advance(whole, emitted, format[pos..pos + amount], Render(format[pos + amount..], args[next..]));
        if maxrem < amount {
          return -1, emitted;
        }
        emitted := PrintBytes(emitted, format[pos..pos + amount]);
        pos := pos + amount;
        written := written + amount;
        continue;
      }
      var formatBegunAt := pos;
      pos := pos + 1;
      if pos < |format| && format[pos] == 'c' {
        CharStep(format, at, args, next);
        Advance(whole, emitted, [args[next].c], Render(format[at + 2..], args[next + 1..]));
        pos := pos + 1;
        var c := args[next].c;
        next := next + 1;
        if maxrem == 0 {
          return -1, emitted;
        }
        emitted := PrintBytes(emitted, [c]);
        written := written + 1;
      } else if pos < |format| && format[pos] == 's' {
        StringStep(format, at, args, next);
        Advance(whole, emitted, args[next].s, Render(format[at + 2..], args[next + 1..]));
        pos := pos + 1;
        var str := args[next].s;
        next := next + 1;
        if maxrem < |str| {
          return -1, emitted;
        }
        emitted := PrintBytes(emitted, str);
        written := written + |str|;
      } else {
        pos := formatBegunAt;
        VerbatimStep(format[pos..], args[next..]);
        NothingLeft(args[next..]);
        Advance(whole, emitted, format[pos..], "");
        var len := |format| - pos;
        if maxrem < len {
          return -1, emitted;
        }
        emitted := PrintBytes(emitted, format[pos..]);
        written := written + len;
        pos := pos + len;
        assert format[pos..] == "";
      }
    }
    NothingLeft(args[next..]);
    assert format[pos..] == "";
  }
}
