/** High-level emulation of the guest's printf-style debug output
  * (Core/HLE/HLE_OS.cpp): the format scanner of GetStringVA, the choice of
  * the register holding the format string, the file-descriptor filters of
  * (v)dprintf and (v)fprintf, and the size handling of __write_console.
  *
  * Guest memory and registers are parameters: the register file is a
  * sequence of 32 words, `stringAt` reads a NUL-terminated guest string,
  * `isRam` and the `read*` functions stand for the host memory accessors.
  * StringFromFormat together with the argument fetch it is given is the
  * `Formatter` parameter: it sees where the arguments live, the kinds already
  * fetched, the format text and the kind fetched now. */
module HLEOS {
  import opened CommonTypes

  datatype ParameterType = ParameterList | VariableArgumentList

  /** The C++ type an argument is fetched as by GetArgT. */
  datatype ArgKind = StringPointer | U32 | U64 | F64

  /** Where the variadic arguments are read from: the registers after the
    * format string (spilling to the stack area at gpr1 + 8), or a va_list
    * structure in guest memory. */
  datatype ArgumentSource = Registers(firstRegister: nat, stackArea: u32) | VaListStruct(address: u32)

  /** One step of the output: a character of the format copied as it is, or
    * a conversion rendered from its format text and one fetched argument. */
  datatype Piece = Literal(c: char) | Formatted(format: string, kind: ArgKind)

  type Formatter = (ArgumentSource, seq<ArgKind>, string, ArgKind) -> string

  const RegisterCount := 32

  // ---------------------------------------------------------------------
  // The format language
  // ---------------------------------------------------------------------

  /** Characters the scanner takes as flags, width, precision or length:
    * everything outside 'A'..'z', and 'l'. */
  predicate IsFlagChar(c: char)
  {
    c < 'A' || c > 'z' || c == 'l' || c == '-'
  }

  predicate IsFloatConversion(c: char)
  {
    c in "aAeEfFgG"
  }

  predicate EndsWithLL(flags: string)
  {
    |flags| >= 2 && flags[|flags| - 2] == 'l' && flags[|flags| - 1] == 'l'
  }

  predicate AllFlags(f: string)
  {
    forall k :: 0 <= k < |f| ==> IsFlagChar(f[k])
  }

  predicate NoPercent(t: string)
  {
    forall k :: 0 <= k < |t| ==> t[k] != '%'
  }

  /** The length of the longest run of flag characters at the front of `s`. */
  function FlagRun(s: string): (n: nat)
    ensures n <= |s|
    ensures forall k :: 0 <= k < n ==> IsFlagChar(s[k])
    ensures n < |s| ==> !IsFlagChar(s[n])
  {
    if s == [] || !IsFlagChar(s[0]) then 0 else 1 + FlagRun(s[1..])
  }

  /** What one complete specifier `%<flags><conv>` contributes. */
  function Conversion(flags: string, conv: char): (r: seq<Piece>)
    ensures |r| == (if conv == 'n' then 0 else 1)
  {
    var format := "%" + flags + [conv];
    if conv == 's' then [Formatted(format, StringPointer)]
    else if IsFloatConversion(conv) then [Formatted(format, F64)]
    else if conv == 'p' then [Formatted("%x", U32)]
    else if conv == 'n' then []
    else if EndsWithLL(flags) then [Formatted(format, U64)]
    else [Formatted(format, U32)]
  }

  /** One step of the scan: the pieces a prefix of the format produces and
    * the length of that prefix, or the end of the scan. */
  datatype Step = Emit(pieces: seq<Piece>, length: nat) | Stop

  /** The first step of scanning a non-empty format: a plain character,
    * `%%`, a complete specifier, or a specifier cut off by the end of the
    * string. */
  function ScanStep(s: string): (r: Step)
    requires s != []
    ensures r.Emit? ==> 0 < r.length <= |s| && |r.pieces| <= 1
  {
    if s[0] != '%' then Emit([Literal(s[0])], 1)
    else if |s| >= 2 && s[1] == '%' then Emit([Literal('%')], 2)
    else
      var n := FlagRun(s[1..]);
      if n + 1 == |s| then Stop
      else Emit(Conversion(s[1..n + 1], s[n + 1]), n + 2)
  }

  /** The reading of a whole format string, step by step from the left. */
  function Scan(s: string): (r: seq<Piece>)
    ensures |r| <= |s|
    decreases |s|
  {
    if s == [] then []
    else match ScanStep(s)
      case Stop => []
      case Emit(pieces, length) => pieces + Scan(s[length..])
  }

  /** The argument a piece fetches: one for a conversion, none for a
    * literal character. */
  function ArgOf(piece: Piece): seq<ArgKind>
  {
    if piece.Formatted? then [piece.kind] else []
  }

  /** The kinds of the arguments the pieces fetch, in order. */
  function ArgsOf(pieces: seq<Piece>): seq<ArgKind>
  {
    if pieces == [] then [] else ArgOf(pieces[0]) + ArgsOf(pieces[1..])
  }

  /** The text of one piece, given the arguments fetched before it. */
  function RenderPiece(piece: Piece, fmt: Formatter, source: ArgumentSource, fetched: seq<ArgKind>): string
  {
    match piece
    case Literal(c) => [c]
    case Formatted(format, kind) => fmt(source, fetched, format, kind)
  }

  /** The text the pieces produce, fetching arguments after `fetched`. */
  function Render(pieces: seq<Piece>, fmt: Formatter, source: ArgumentSource, fetched: seq<ArgKind>): string
  {
    if pieces == [] then []
    else RenderPiece(pieces[0], fmt, source, fetched) + Render(pieces[1..], fmt, source, fetched + ArgOf(pieces[0]))
  }

  function Literals(t: string): (r: seq<Piece>)
    ensures |r| == |t| && forall k :: 0 <= k < |t| ==> r[k] == Literal(t[k])
  {
    if t == [] then [] else [Literal(t[0])] + Literals(t[1..])
  }

  /** Where GetStringVA takes its arguments from. */
  function ArgumentsFrom(gpr: seq<u32>, strReg: nat, parameterType: ParameterType): ArgumentSource
    requires |gpr| == RegisterCount && strReg + 1 < RegisterCount
  {
    if parameterType == VariableArgumentList then VaListStruct(gpr[strReg + 1])
    else Registers(strReg + 1, AddU32(gpr[1], 8))
  }

  /** The string GetStringVA produces for the format string in `strReg`. */
  function FormatString(gpr: seq<u32>, strReg: nat, parameterType: ParameterType,
                        stringAt: u32 -> string, fmt: Formatter): string
    requires |gpr| == RegisterCount && strReg + 1 < RegisterCount
  {
    Render(Scan(stringAt(gpr[strReg])), fmt, ArgumentsFrom(gpr, strReg, parameterType), [])
  }

  // ---------------------------------------------------------------------
  // Lemmas about the format language
  // ---------------------------------------------------------------------

  lemma {:induction false} ArgsOfAppend(a: seq<Piece>, b: seq<Piece>)
    ensures ArgsOf(a + b) == ArgsOf(a) + ArgsOf(b)
  {
    if a != [] {
      assert (a + b)[0] == a[0] && (a + b)[1..] == a[1..] + b;
      ArgsOfAppend(a[1..], b);
      assert ArgOf(a[0]) + (ArgsOf(a[1..]) + ArgsOf(b)) == (ArgOf(a[0]) + ArgsOf(a[1..])) + ArgsOf(b);
    } else {
      assert a + b == b;
    }
  }

  /** Rendering a non-empty concatenation starts with its first piece. */
  lemma RenderCons(a: seq<Piece>, b: seq<Piece>, fmt: Formatter, source: ArgumentSource, fetched: seq<ArgKind>)
    requires a != []
    ensures Render(a + b, fmt, source, fetched) ==
            RenderPiece(a[0], fmt, source, fetched) + Render(a[1..] + b, fmt, source, fetched + ArgOf(a[0]))
  {
    assert (a + b)[0] == a[0] && (a + b)[1..] == a[1..] + b;
  }

  lemma Regroup<T>(x: seq<T>, y: seq<T>, z: seq<T>)
    ensures x + (y + z) == (x + y) + z
  {
  }

  /** One step of RenderAppend: the split for `a` follows from the split
    * for its tail. */
  lemma RenderAppendStep(a: seq<Piece>, b: seq<Piece>, fmt: Formatter, source: ArgumentSource,
                         fetched: seq<ArgKind>)
    requires a != []
    requires var next := fetched + ArgOf(a[0]);
      Render(a[1..] + b, fmt, source, next) ==
      Render(a[1..], fmt, source, next) + Render(b, fmt, source, next + ArgsOf(a[1..]))
    ensures Render(a + b, fmt, source, fetched) ==
            Render(a, fmt, source, fetched) + Render(b, fmt, source, fetched + ArgsOf(a))
  {
    var head, next := RenderPiece(a[0], fmt, source, fetched), fetched + ArgOf(a[0]);
    RenderCons(a, b, fmt, source, fetched);
    Regroup(fetched, ArgOf(a[0]), ArgsOf(a[1..]));
    Regroup(head, Render(a[1..], fmt, source, next), Render(b, fmt, source, fetched + ArgsOf(a)));
  }

  /** Rendering splits at any point, the second part continuing the
    * argument fetches where the first left off. */
  lemma {:induction false} RenderAppend(a: seq<Piece>, b: seq<Piece>, fmt: Formatter,
                                        source: ArgumentSource, fetched: seq<ArgKind>)
    ensures Render(a + b, fmt, source, fetched) ==
            Render(a, fmt, source, fetched) + Render(b, fmt, source, fetched + ArgsOf(a))
  {
    if a == [] {
      assert a + b == b && fetched + [] == fetched;
    } else {
      RenderAppend(a[1..], b, fmt, source, fetched + ArgOf(a[0]));
      RenderAppendStep(a, b, fmt, source, fetched);
    }
  }

  /** A run of flag characters followed by a non-flag (or the end) is
    * exactly what FlagRun measures. */
  lemma {:induction false} FlagRunIs(s: string, n: nat)
    requires n <= |s| && (forall k :: 0 <= k < n ==> IsFlagChar(s[k])) && (n < |s| ==> !IsFlagChar(s[n]))
    ensures FlagRun(s) == n
  {
    if n > 0 {
      FlagRunIs(s[1..], n - 1);
    }
  }

  /** A '%' followed by flag characters up to `j`, then a conversion letter
    * or the end of the string. */
  lemma SpecifierStep(s: string, j: nat)
    requires 0 < j <= |s| && s[0] == '%' && !(|s| >= 2 && s[1] == '%')
    requires (forall k :: 0 < k < j ==> IsFlagChar(s[k])) && (j < |s| ==> !IsFlagChar(s[j]))
    ensures j == |s| ==> ScanStep(s) == Stop
    ensures j < |s| ==> ScanStep(s) == Emit(Conversion(s[1..j], s[j]), j + 1)
  {
    FlagRunIs(s[1..], j - 1);
  }

  /** Characters outside a specifier are copied unchanged and in order. */
  lemma {:induction false} ScanPlainText(t: string, u: string)
    requires NoPercent(t)
    ensures Scan(t + u) == Literals(t) + Scan(u)
  {
    if t != [] {
      assert (t + u)[0] == t[0];
      assert (t + u)[1..] == t[1..] + u;
      ScanPlainText(t[1..], u);
    } else {
      assert t + u == u;
    }
  }

  lemma {:induction false} RenderLiterals(t: string, fmt: Formatter, source: ArgumentSource, fetched: seq<ArgKind>)
    ensures Render(Literals(t), fmt, source, fetched) == t
  {
    if t != [] {
      assert Literals(t)[1..] == Literals(t[1..]);
      assert fetched + ArgOf(Literals(t)[0]) == fetched;
      RenderLiterals(t[1..], fmt, source, fetched);
    }
  }

  lemma {:induction false} LiteralsFetchNothing(t: string)
    ensures ArgsOf(Literals(t)) == []
  {
    if t != [] {
      assert Literals(t)[1..] == Literals(t[1..]);
      LiteralsFetchNothing(t[1..]);
    }
  }

  /** A format without '%' prints as itself and fetches no argument. */
  lemma PlainFormatIsCopied(t: string, fmt: Formatter, source: ArgumentSource)
    requires NoPercent(t)
    ensures Render(Scan(t), fmt, source, []) == t
    ensures ArgsOf(Scan(t)) == []
  {
    ScanPlainText(t, []);
    assert t + [] == t;
    RenderLiterals(t, fmt, source, []);
    LiteralsFetchNothing(t);
  }

  /** `%%` prints one '%' and fetches no argument. */
  lemma EscapedPercent(u: string)
    ensures Scan("%%" + u) == [Literal('%')] + Scan(u)
    ensures ArgsOf(Scan("%%" + u)) == ArgsOf(Scan(u))
  {
    var s := "%%" + u;
    assert ScanStep(s) == Emit([Literal('%')], 2);
    assert s[2..] == u;
    ArgsOfAppend([Literal('%')], Scan(u));
  }

  /** A specifier that reaches the end of the string before its conversion
    * letter ends the scan and prints nothing. */
  lemma UnterminatedSpecifier(t: string, f: string)
    requires NoPercent(t) && AllFlags(f) && (f == [] || f[0] != '%')
    ensures Scan(t + "%" + f) == Literals(t)
  {
    var s := "%" + f;
    assert t + "%" + f == t + s;
    ScanPlainText(t, s);
    SpecifierStep(s, |s|);
    assert Literals(t) + [] == Literals(t);
  }

  /** What each conversion letter fetches: a string pointer for 's', a
    * double for the floating-point letters, a u32 printed with "%x" whatever
    * the flags for 'p', nothing for 'n', and otherwise a u64 after "ll" and a
    * u32 without. */
  lemma ConversionArguments(f: string, c: char)
    ensures c == 's' ==> ArgsOf(Conversion(f, c)) == [StringPointer]
    ensures IsFloatConversion(c) ==> ArgsOf(Conversion(f, c)) == [F64]
    ensures c == 'p' ==> Conversion(f, c) == Conversion([], c) == [Formatted("%x", U32)]
    ensures c == 'n' ==> Conversion(f, c) == []
    ensures c != 's' && c != 'p' && c != 'n' && !IsFloatConversion(c) ==>
              ArgsOf(Conversion(f, c)) == [if EndsWithLL(f) then U64 else U32]
    ensures |ArgsOf(Conversion(f, c))| == (if c == 'n' then 0 else 1)
  {
    var pieces := Conversion(f, c);
    if pieces != [] {
      assert pieces[1..] == [];
    }
  }

  /** A complete specifier in front of the rest of the format: it contributes
    * what its conversion letter says, and the scan goes on after it. */
  lemma Specifier(f: string, c: char, u: string)
    requires AllFlags(f) && (f == [] || f[0] != '%') && !IsFlagChar(c)
    ensures Scan("%" + f + [c] + u) == Conversion(f, c) + Scan(u)
    ensures ArgsOf(Scan("%" + f + [c] + u)) == ArgsOf(Conversion(f, c)) + ArgsOf(Scan(u))
  {
    var s := "%" + f + [c] + u;
    SpecifierStep(s, |f| + 1);
    assert s[1..|f| + 1] == f && s[|f| + 1] == c;
    assert ScanStep(s) == Emit(Conversion(f, c), |f| + 2);
    assert s[|f| + 2..] == u;
    ArgsOfAppend(Conversion(f, c), Scan(u));
  }

  function CountPercent(s: string): nat
  {
    if s == [] then 0 else (if s[0] == '%' then 1 else 0) + CountPercent(s[1..])
  }

  lemma {:induction false} CountPercentAppend(a: string, b: string)
    ensures CountPercent(a + b) == CountPercent(a) + CountPercent(b)
  {
    if a == [] {
      assert a + b == b;
    } else {
      assert (a + b)[1..] == a[1..] + b;
      CountPercentAppend(a[1..], b);
    }
  }

  /** Every step fetches at most one argument per '%' it takes. */
  lemma StepArguments(s: string)
    requires s != [] && ScanStep(s).Emit?
    ensures |ArgsOf(ScanStep(s).pieces)| <= CountPercent(s[..ScanStep(s).length])
  {
    var n := ScanStep(s).length;
    assert s[..n] == [s[0]] + s[1..n];
    if s[0] == '%' && !(|s| >= 2 && s[1] == '%') {
      var flags := s[1..n - 1];
      var c := s[n - 1];
      assert |ArgsOf(Conversion(flags, c))| <= 1;
    }
  }

  /** Every fetched argument belongs to its own '%': a format never fetches
    * more arguments than it has percent signs. */
  lemma {:induction false} ArgumentsAtMostPercents(s: string)
    ensures |ArgsOf(Scan(s))| <= CountPercent(s)
    decreases |s|
  {
    if s != [] && ScanStep(s).Emit? {
      var n := ScanStep(s).length;
      assert s == s[..n] + s[n..];
      CountPercentAppend(s[..n], s[n..]);
      StepArguments(s);
      ArgumentsAtMostPercents(s[n..]);
      ArgsOfAppend(ScanStep(s).pieces, Scan(s[n..]));
    }
  }

  // ---------------------------------------------------------------------
  // GetStringVA
  // ---------------------------------------------------------------------

  /** std::string's operator[] yields '\0' at index size(). */
  function CharAt(s: string, i: nat): (c: char)
    requires i <= |s|
    ensures i < |s| ==> c == s[i]
    ensures i == |s| ==> c == '\0'
  {
    if i < |s| then s[i] else '\0'
  }

  /** Appending pieces extends the text and the fetch trace accordingly. */
  lemma EmitStep(pieces: seq<Piece>, more: seq<Piece>, fmt: Formatter, source: ArgumentSource)
    ensures Render(pieces + more, fmt, source, []) ==
            Render(pieces, fmt, source, []) + Render(more, fmt, source, ArgsOf(pieces))
    ensures ArgsOf(pieces + more) == ArgsOf(pieces) + ArgsOf(more)
  {
    RenderAppend(pieces, more, fmt, source, []);
    assert [] + ArgsOf(pieces) == ArgsOf(pieces);
    ArgsOfAppend(pieces, more);
  }

  /** Taking one step off the scan of the suffix at `i`. */
  lemma ScanFrom(s: string, i: nat, emitted: seq<Piece>, j: nat)
    requires i < j && i < |s| && ScanStep(s[i..]) == Emit(emitted, j - i)
    ensures j <= |s| && Scan(s[i..]) == emitted + Scan(s[j..])
  {
    assert s[i..][j - i..] == s[j..];
  }

  lemma ScanStops(s: string, i: nat)
    requires i < |s| && ScanStep(s[i..]) == Stop
    ensures Scan(s[i..]) == []
  {
  }

  /** Moving a prefix of what remains over to what is done. */
  lemma Advance<T>(done: seq<T>, emitted: seq<T>, rest: seq<T>, after: seq<T>, whole: seq<T>)
    requires done + rest == whole && rest == emitted + after
    ensures (done + emitted) + after == whole
  {
  }

  lemma Finish<T>(done: seq<T>, rest: seq<T>, whole: seq<T>)
    requires done + rest == whole && rest == []
    ensures done == whole
  {
    assert done + rest == done;
  }

  /** The switch on the conversion letter `format[i]` of the specifier that
    * starts at `start`: what it prints and which arguments it fetches. */
  method FormatConversion(format: string, start: nat, i: nat, argumentBuffer: string,
                          source: ArgumentSource, fetched: seq<ArgKind>, fmt: Formatter)
    returns (text: string, kinds: seq<ArgKind>)
    requires start < i < |format| && format[start] == '%' && argumentBuffer == format[start..i + 1]
    ensures text == Render(Conversion(format[start + 1..i], format[i]), fmt, source, fetched)
    ensures kinds == ArgsOf(Conversion(format[start + 1..i], format[i]))
  {
    ghost var flags := format[start + 1..i];
    assert argumentBuffer == "%" + flags + [format[i]];
    if format[i] == 's' {
      text, kinds := fmt(source, fetched, argumentBuffer, StringPointer), [StringPointer];
    } else if IsFloatConversion(format[i]) {
      text, kinds := fmt(source, fetched, argumentBuffer, F64), [F64];
    } else if format[i] == 'p' {
      text, kinds := fmt(source, fetched, "%x", U32), [U32];
    } else if format[i] == 'n' {
      text, kinds := [], [];
    } else if format[i - 1] == 'l' && format[i - 2] == 'l' {
      assert EndsWithLL(flags);
      text, kinds := fmt(source, fetched, argumentBuffer, U64), [U64];
    } else {
      assert !EndsWithLL(flags);
      text, kinds := fmt(source, fetched, argumentBuffer, U32), [U32];
    }
  }

  /** The flag loop of GetStringVA: gather flag characters after the '%' at
    * `start` into the argument buffer. */
  method GatherFlags(format: string, start: nat) returns (i: nat, argumentBuffer: string)
    requires start < |format|
    ensures start < i <= |format| && argumentBuffer == format[start..i]
    ensures (forall k :: start < k < i ==> IsFlagChar(format[k])) && (i < |format| ==> !IsFlagChar(format[i]))
  {
    argumentBuffer := format[start..start + 1];
    i := start + 1;
    while i < |format| && IsFlagChar(format[i])
      invariant start < i <= |format|
      invariant argumentBuffer == format[start..i]
      invariant forall k :: start < k < i ==> IsFlagChar(format[k])
    {
      argumentBuffer := argumentBuffer + [format[i]];
      i := i + 1;
    }
  }

  /** The part of GetStringVA's loop body that handles a '%' at `start`:
    * `%%`, or flags up to a conversion letter. `next` is where the loop
    * goes on; `complete` is false when the string ends inside the specifier,
    * which ends the loop. */
  method ScanSpecifier(format: string, start: nat, source: ArgumentSource,
                       fetched: seq<ArgKind>, fmt: Formatter)
    returns (next: nat, text: string, kinds: seq<ArgKind>, complete: bool, ghost emitted: seq<Piece>)
    requires start < |format| && format[start] == '%'
    ensures !complete ==> ScanStep(format[start..]) == Stop
    ensures complete ==> start < next && ScanStep(format[start..]) == Emit(emitted, next - start)
    ensures text == Render(emitted, fmt, source, fetched) && kinds == ArgsOf(emitted)
  {
    ghost var rest := format[start..];
    if CharAt(format, start + 1) == '%' {
      return start + 2, "%", [], true, [Literal('%')];
    }
    var i, argumentBuffer := GatherFlags(format, start);
    SpecifierStep(rest, i - start);
    if i >= |format| {
      return i, [], [], false, [];
    }
    assert rest[1..i - start] == format[start + 1..i];
    argumentBuffer := argumentBuffer + [format[i]];
    emitted := Conversion(format[start + 1..i], format[i]);
    text, kinds := FormatConversion(format, start, i, argumentBuffer, source, fetched, fmt);
    next, complete := i + 1, true;
  }

  /** One pass of GetStringVA's loop at `i`: a literal character, or the
    * specifier starting there. Unless the format ends inside the specifier,
    * it takes the next step of the scan and prints that step. */
  method ExpandNext(format: string, i: nat, source: ArgumentSource, fetched: seq<ArgKind>, fmt: Formatter)
    returns (next: nat, text: string, kinds: seq<ArgKind>, complete: bool, ghost emitted: seq<Piece>)
    requires i < |format|
    ensures !complete ==> Scan(format[i..]) == []
    ensures complete ==> i < next <= |format| && Scan(format[i..]) == emitted + Scan(format[next..])
    ensures text == Render(emitted, fmt, source, fetched) && kinds == ArgsOf(emitted)
  {
    if format[i] == '%' {
      next, text, kinds, complete, emitted := ScanSpecifier(format, i, source, fetched, fmt);
      if !complete {
        ScanStops(format, i);
        return;
      }
    } else {
      next, text, kinds, complete, emitted := i + 1, [format[i]], [], true, [Literal(format[i])];
      assert format[i..][0] == format[i];
    }
    ScanFrom(format, i, emitted, next);
  }

  /** The format-string expansion: copies plain characters, turns `%%` into
    * '%', and hands each specifier to the formatter with the next argument.
    * `consumed` is the trace of argument kinds fetched from the argument list. */
  method GetStringVA(gpr: seq<u32>, strReg: nat, parameterType: ParameterType,
                     stringAt: u32 -> string, fmt: Formatter)
    returns (result: string, consumed: seq<ArgKind>)
    requires |gpr| == RegisterCount && strReg + 1 < RegisterCount
    ensures result == FormatString(gpr, strReg, parameterType, stringAt, fmt)
    ensures consumed == ArgsOf(Scan(stringAt(gpr[strReg])))
  {
    var format := stringAt(gpr[strReg]);
    var source := if parameterType == VariableArgumentList then VaListStruct(gpr[strReg + 1])
                  else Registers(strReg + 1, AddU32(gpr[1], 8));
    assert source == ArgumentsFrom(gpr, strReg, parameterType);
    result, consumed := [], [];
    ghost var pieces: seq<Piece> := [];
    var i := 0;
    while i < |format|
      invariant 0 <= i <= |format|
      invariant pieces + Scan(format[i..]) == Scan(format)
      invariant result == Render(pieces, fmt, source, [])
      invariant consumed == ArgsOf(pieces)
    {
      ghost var emitted: seq<Piece>;
      var next: nat, text: string, kinds: seq<ArgKind>, complete: bool;
      next, text, kinds, complete, emitted := ExpandNext(format, i, source, consumed, fmt);
      if !complete {
        Finish(pieces, Scan(format[i..]), Scan(format));
        break;
      }
      EmitStep(pieces, emitted, fmt, source);
      Advance(pieces, emitted, Scan(format[i..]), Scan(format[next..]), Scan(format));
      result, consumed := result + text, consumed + kinds;
      pieces := pieces + emitted;
      i := next;
    }
    if i == |format| {
      assert format[i..] == [];
      Finish(pieces, Scan(format[i..]), Scan(format));
    }
  }

  // ---------------------------------------------------------------------
  // The printing hooks
  // ---------------------------------------------------------------------

  /** StringPopBackIf: drop the last character when it is `c`. */
  function PopBackIf(s: string, c: char): (r: string)
    ensures r <= s && |s| - 1 <= |r|
    ensures |r| < |s| <==> s != [] && s[|s| - 1] == c
  {
    if s != [] && s[|s| - 1] == c then s[..|s| - 1] else s
  }

  /** The call shapes HLE_GeneralDebugPrint recognises, by what precedes the
    * format string: nothing, a log type, a `this` pointer, or both. */
  datatype DebugPrintSignature = FormatFirst | LogTypeThenFormat | ThisThenFormat | ThisLogTypeThenFormat

  function LeadingParameters(sig: DebugPrintSignature): nat
  {
    match sig
    case FormatFirst => 0
    case LogTypeThenFormat => 1
    case ThisThenFormat => 1
    case ThisLogTypeThenFormat => 2
  }

  /** gpr3 holds a pointer to a pointer (or to null) rather than to text. */
  predicate PointsToPointer(gpr3: u32, isRam: u32 -> bool, readU32: u32 -> u32)
  {
    isRam(gpr3) && (isRam(readU32(gpr3)) || readU32(gpr3) == 0)
  }

  /** The guess HLE_GeneralDebugPrint makes from the first two registers. */
  function GuessSignature(gpr3: u32, gpr4: u32, isRam: u32 -> bool, readU32: u32 -> u32): DebugPrintSignature
  {
    if PointsToPointer(gpr3, isRam, readU32) then
      (if isRam(gpr4) then ThisThenFormat else ThisLogTypeThenFormat)
    else
      (if isRam(gpr3) then FormatFirst else LogTypeThenFormat)
  }

  /** The format string sits in the first argument register (r3) after the
    * leading parameters. */
  function FormatRegister(sig: DebugPrintSignature): (reg: nat)
    ensures 3 <= reg <= 5
    ensures reg == 3 + LeadingParameters(sig)
  {
    3 + LeadingParameters(sig)
  }

  /** Which register is taken for the format string, case by case. */
  lemma FormatRegisterChoice(gpr3: u32, gpr4: u32, isRam: u32 -> bool, readU32: u32 -> u32)
    ensures var reg := FormatRegister(GuessSignature(gpr3, gpr4, isRam, readU32));
      (reg == 3 <==> isRam(gpr3) && !PointsToPointer(gpr3, isRam, readU32)) &&
      (reg == 5 <==> PointsToPointer(gpr3, isRam, readU32) && !isRam(gpr4)) &&
      (reg == 4 <==> (PointsToPointer(gpr3, isRam, readU32) && isRam(gpr4)) || !isRam(gpr3))
  {
  }

  /** HLE_GeneralDebugPrint: the message it logs. */
  method GeneralDebugPrint(gpr: seq<u32>, parameterType: ParameterType, isRam: u32 -> bool,
                           readU32: u32 -> u32, stringAt: u32 -> string, fmt: Formatter)
    returns (message: string)
    requires |gpr| == RegisterCount
    ensures var reg := FormatRegister(GuessSignature(gpr[3], gpr[4], isRam, readU32));
      message == PopBackIf(FormatString(gpr, reg, parameterType, stringAt, fmt), '\n')
  {
    var reg: nat;
    if isRam(gpr[3]) && (isRam(readU32(gpr[3])) || readU32(gpr[3]) == 0) {
      if isRam(gpr[4]) {
        reg := 4;
      } else {
        reg := 5;
      }
    } else {
      if isRam(gpr[3]) {
        reg := 3;
      } else {
        reg := 4;
      }
    }
    assert reg == FormatRegister(GuessSignature(gpr[3], gpr[4], isRam, readU32));
    var expanded, _ := GetStringVA(gpr, reg, parameterType, stringAt, fmt);
    message := PopBackIf(expanded, '\n');
  }

  /** HLE_write_console: the message is the format string in r4 expanded,
    * cut to the size stored at r5 when that size is usable. */
  method WriteConsole(gpr: seq<u32>, isRam: u32 -> bool, readU32: u32 -> u32,
                      stringAt: u32 -> string, fmt: Formatter)
    returns (message: string)
    requires |gpr| == RegisterCount
    ensures var full := FormatString(gpr, 4, ParameterList, stringAt, fmt);
      var size := readU32(gpr[5]);
      message <= full &&
      (isRam(gpr[5]) && 0 < size <= |full| ==> message == PopBackIf(full[..size], '\n')) &&
      (!isRam(gpr[5]) || size == 0 || size > |full| ==> message == PopBackIf(full, '\n'))
  {
    var fetched;
    message, fetched := GetStringVA(gpr, 4, ParameterList, stringAt, fmt);
    if isRam(gpr[5]) {
      var size := readU32(gpr[5]);
      if size > |message| {
        // an invalid size is reported and ignored
      } else if size == 0 {
        // a zero size is reported and ignored
      } else {
        message := message[..size];
      }
    }
    message := PopBackIf(message, '\n');
  }

  /** HLE_LogDPrint: (v)dprintf is logged only for stdout and stderr. */
  method LogDPrint(gpr: seq<u32>, parameterType: ParameterType, stringAt: u32 -> string, fmt: Formatter)
    returns (logged: Option<string>)
    requires |gpr| == RegisterCount
    ensures logged.Some? <==> gpr[3] == 1 || gpr[3] == 2
    ensures logged.Some? ==> logged.value == PopBackIf(FormatString(gpr, 4, parameterType, stringAt, fmt), '\n')
  {
    if gpr[3] != 1 && gpr[3] != 2 {
      return None;
    }
    var message, _ := GetStringVA(gpr, 4, parameterType, stringAt, fmt);
    logged := Some(PopBackIf(message, '\n'));
  }

  /** static_cast<short> of a 16-bit value. */
  function ToShort(v: u16): (r: int)
    ensures -0x8000 <= r < 0x8000
    ensures r % TwoTo16 == v
  {
    if v >= 0x8000 then v - TwoTo16 else v
  }

  /** The fd of a FILE: the short at FILE+0xE when FILE..FILE+0xF is RAM
    * (libogc and the Dolphin SDK), otherwise or when that is not 1 or 2 the
    * short at FILE+0x2 (the RVL SDK). */
  function FileDescriptor(file: u32, isRam: u32 -> bool, readU16: u32 -> u16): (fd: int)
    ensures -0x8000 <= fd < 0x8000
  {
    var probe := if isRam(file) && isRam(AddU32(file, 0xF)) then ToShort(readU16(AddU32(file, 0xE))) else -1;
    if probe == 1 || probe == 2 then probe else ToShort(readU16(AddU32(file, 0x2)))
  }

  /** The fd comes from the +0xE field whenever that field is readable and
    * names stdout or stderr; only otherwise does the +0x2 field decide. */
  lemma FileDescriptorChoice(file: u32, isRam: u32 -> bool, readU16: u32 -> u16)
    ensures var primary := ToShort(readU16(AddU32(file, 0xE)));
      var fallback := ToShort(readU16(AddU32(file, 0x2)));
      var fd := FileDescriptor(file, isRam, readU16);
      (isRam(file) && isRam(AddU32(file, 0xF)) && (primary == 1 || primary == 2) ==> fd == primary) &&
      (!(isRam(file) && isRam(AddU32(file, 0xF)) && (primary == 1 || primary == 2)) ==> fd == fallback) &&
      -0x8000 <= fd < 0x8000
  {
  }

  /** HLE_LogFPrint: (v)fprintf is logged only when the FILE is stdout or
    * stderr. */
  method LogFPrint(gpr: seq<u32>, parameterType: ParameterType, isRam: u32 -> bool,
                   readU16: u32 -> u16, stringAt: u32 -> string, fmt: Formatter)
    returns (logged: Option<string>)
    requires |gpr| == RegisterCount
    ensures var fd := FileDescriptor(gpr[3], isRam, readU16);
      logged.Some? <==> fd == 1 || fd == 2
    ensures logged.Some? ==> logged.value == PopBackIf(FormatString(gpr, 4, parameterType, stringAt, fmt), '\n')
  {
    var fd := -1;
    if isRam(gpr[3]) && isRam(AddU32(gpr[3], 0xF)) {
      fd := ToShort(readU16(AddU32(gpr[3], 0xE)));
    }
    if fd != 1 && fd != 2 {
      fd := ToShort(readU16(AddU32(gpr[3], 0x2)));
    }
    if fd != 1 && fd != 2 {
      return None;
    }
    var message, _ := GetStringVA(gpr, 4, parameterType, stringAt, fmt);
    logged := Some(PopBackIf(message, '\n'));
  }
}
