/**
 * The line filter and driver of the S12 assembler: source lines are trimmed,
 * blank and comment lines are skipped, every other line is split into a
 * mnemonic and an optional hexadecimal operand, encoded, and written after a
 * %02X rendering of its zero-based physical line number.  One fixed header
 * record comes first; the first error ends the run, keeping the records
 * already written.
 */
module Assembler {
  import opened Wrappers
  import opened Text
  import opened Encoder

  /** The first record of every output: the initial PC and ALU state. */
  const Header: string := "00000000 000000000000"

  /** What a run leaves behind: the records written, and the error that ended it, if any. */
  datatype Output = Output(records: seq<string>, error: Option<Error>)

  /** A trimmed line that yields no record: empty, or a comment starting with "//". */
  predicate IsSkipped(line: string) {
    line == [] || (|line| >= 2 && line[..2] == "//")
  }

  /** A line of nothing but characters at or below U+0020 is skipped. */
  lemma BlankSkipped(raw: string)
    requires forall k :: 0 <= k < |raw| ==> IsTrimmable(raw[k])
    ensures IsSkipped(Trim(raw))
  {
    TrimSlice(raw);
  }

  /** A line whose first characters above U+0020 are "//" is skipped, whatever follows. */
  lemma CommentSkipped(indent: string, rest: string)
    requires forall k :: 0 <= k < |indent| ==> IsTrimmable(indent[k])
    ensures IsSkipped(Trim(indent + "//" + rest))
  {
    var raw := indent + "//" + rest;
    var n := |indent|;
    assert raw[n] == '/' && raw[n + 1] == '/';
    assert forall k :: 0 <= k < n ==> raw[k] == indent[k];
    TrimSlice(raw);
  }

  /** A line that is kept once trimmed is split into at least one word. */
  lemma KeptLineHasWords(raw: string)
    requires !IsSkipped(Trim(raw))
    ensures Split(Trim(raw)) != []
  {
    var line := Trim(raw);
    assert !IsSpace(line[0]);
  }

  /** The operand of a split line: its second word read as base 16, or 0 without one. */
  function ReadOperand(parts: seq<string>): (r: Result<int32, Error>)
    ensures |parts| <= 1 ==> r == Success(0)
    ensures |parts| > 1 ==> (r.Success? <==> ParseInt16(parts[1]).Some?)
    ensures r.Failure? ==> |parts| > 1 && r.error == MalformedOperand(parts[1])
    ensures |parts| > 1 && r.Success? ==> r.value == ParseInt16(parts[1]).value
  {
    if |parts| > 1 then
      match ParseInt16(parts[1])
      case None => Failure(MalformedOperand(parts[1]))
      case Some(v) => Success(v)
    else Success(0)
  }

  /**
   * The effect of the words of a kept line, the line having zero-based number
   * `lineNumber`: the record `%02X(lineNumber) + binary`, or the error that
   * aborts the run.  The operand is parsed before the mnemonic is looked up.
   */
  function TranslateWords(lineNumber: nat, parts: seq<string>): (r: LineEffect)
    requires parts != []
    ensures r.Success? ==> r.value.Some?
    ensures ReadOperand(parts).Failure? ==> r == Failure(ReadOperand(parts).error)
    ensures ReadOperand(parts).Success? && ToUpper(parts[0]) !in Mnemonics
            ==> r == Failure(UnknownInstruction(ToUpper(parts[0])))
    ensures r.Failure? <==> ReadOperand(parts).Failure? || ToUpper(parts[0]) !in Mnemonics
  {
    var instruction := ToUpper(parts[0]);
    match ReadOperand(parts)
    case Failure(e) => Failure(e)
    case Success(operand) =>
      match Assemble(instruction, operand)
      case Failure(e) => Failure(e)
      case Success(binary) => Success(Some(FormatHex2(lineNumber) + binary))
  }

  /** The effect of one physical line: nothing for a skipped line, else the effect of its words. */
  function TranslateLine(lineNumber: nat, raw: string): (r: LineEffect)
    ensures r == Success(None) <==> IsSkipped(Trim(raw))
  {
    var line := Trim(raw);
    if IsSkipped(line) then Success(None)
    else
      KeptLineHasWords(raw);
      TranslateWords(lineNumber, Split(line))
  }

  /**
   * A record is the line's address, %02X of its number, followed by the
   * 13-character encoding of the line's own upper-cased mnemonic and operand
   * byte; the address reads back as the line number.
   */
  lemma RecordShape(lineNumber: nat, raw: string)
    requires TranslateLine(lineNumber, raw).Success? && TranslateLine(lineNumber, raw).value.Some?
    ensures !IsSkipped(Trim(raw)) && Split(Trim(raw)) != []
    ensures var rec := TranslateLine(lineNumber, raw).value.value;
            var parts := Split(Trim(raw));
            var m := ToUpper(parts[0]);
            && |rec| >= 15
            && rec[..|rec| - 13] == FormatHex2(lineNumber)
            && ReadOperand(parts).Success?
            && Decode(rec[|rec| - 13..]) == Some((m, if m == "HALT" then 0 else LowByte(ReadOperand(parts).value)))
            && (lineNumber < 0x8000_0000 ==> ParseInt16(rec[..|rec| - 13]) == Some(lineNumber as int32))
  {
    var rec := TranslateLine(lineNumber, raw).value.value;
    KeptLineHasWords(raw);
    var parts := Split(Trim(raw));
    var instruction := ToUpper(parts[0]);
    var operand := ReadOperand(parts).value;
    var binary := Assemble(instruction, operand).value;
    assert rec == FormatHex2(lineNumber) + binary;
    assert rec[..|rec| - 13] == FormatHex2(lineNumber) && rec[|rec| - 13..] == binary;
    AssembleDecodes(instruction, operand);
    if lineNumber < 0x8000_0000 {
      FormatHex2RoundTrip(lineNumber);
    }
  }

  /**
   * A line fails only when it is kept, and then either its upper-cased first
   * word is not a mnemonic, or it has a second word that is not a base-16 `int`.
   */
  lemma LineErrors(lineNumber: nat, raw: string)
    requires TranslateLine(lineNumber, raw).Failure?
    ensures !IsSkipped(Trim(raw)) && Split(Trim(raw)) != []
    ensures var parts := Split(Trim(raw));
            match TranslateLine(lineNumber, raw).error
            case UnknownInstruction(m) =>
              m == ToUpper(parts[0]) && m !in Mnemonics && (|parts| > 1 ==> ParseInt16(parts[1]).Some?)
            case MalformedOperand(t) =>
              |parts| > 1 && t == parts[1] && ParseInt16(t).None?
  {
    KeptLineHasWords(raw);
  }

  /**
   * The converse: a kept line whose second word does not parse fails with that
   * word, whatever its mnemonic (the operand is read first); one whose operand
   * is fine and whose upper-cased first word is not a mnemonic fails with it.
   */
  lemma LineFails(lineNumber: nat, raw: string)
    requires !IsSkipped(Trim(raw))
    ensures Split(Trim(raw)) != []
    ensures var parts := Split(Trim(raw));
            |parts| > 1 && ParseInt16(parts[1]).None?
            ==> TranslateLine(lineNumber, raw) == Failure(MalformedOperand(parts[1]))
    ensures var parts := Split(Trim(raw));
            ToUpper(parts[0]) !in Mnemonics && (|parts| > 1 ==> ParseInt16(parts[1]).Some?)
            ==> TranslateLine(lineNumber, raw) == Failure(UnknownInstruction(ToUpper(parts[0])))
  {
    KeptLineHasWords(raw);
  }

  /**
   * Mnemonics are case-insensitive: word lists whose first words agree once
   * upper-cased and whose remaining words are the same translate alike.
   */
  lemma WordsCaseInsensitive(lineNumber: nat, pa: seq<string>, pb: seq<string>)
    requires pa != [] && pb != []
    requires ToUpper(pa[0]) == ToUpper(pb[0]) && pa[1..] == pb[1..]
    ensures TranslateWords(lineNumber, pa) == TranslateWords(lineNumber, pb)
  {
    assert |pa| == |pb|;
    assert |pa| > 1 ==> pa[1] == pa[1..][0] == pb[1..][0] == pb[1];
    assert ReadOperand(pa) == ReadOperand(pb);
  }

  /** The same for two kept lines, through their split words. */
  lemma MnemonicCaseInsensitive(lineNumber: nat, a: string, b: string)
    requires !IsSkipped(Trim(a)) && !IsSkipped(Trim(b))
    requires Split(Trim(a)) != [] && Split(Trim(b)) != []
    requires ToUpper(Split(Trim(a))[0]) == ToUpper(Split(Trim(b))[0])
    requires Split(Trim(a))[1..] == Split(Trim(b))[1..]
    ensures TranslateLine(lineNumber, a) == TranslateLine(lineNumber, b)
  {
    WordsCaseInsensitive(lineNumber, Split(Trim(a)), Split(Trim(b)));
  }

  /** In particular a mnemonic written in lower case reads like the upper-case one. */
  lemma LowerCaseMnemonic(lineNumber: nat, a: string, b: string)
    requires !IsSkipped(Trim(a)) && !IsSkipped(Trim(b))
    requires Split(Trim(a)) != [] && Split(Trim(b)) != []
    requires Split(Trim(a))[0] == ToLower(Split(Trim(b))[0])
    requires Split(Trim(a))[1..] == Split(Trim(b))[1..]
    ensures TranslateLine(lineNumber, a) == TranslateLine(lineNumber, b)
  {
    UpperOfLower(Split(Trim(b))[0]);
    MnemonicCaseInsensitive(lineNumber, a, b);
  }

  /** What one physical line contributes: nothing, one record, or the error that ends the run. */
  type LineEffect = Result<Option<string>, Error>

  /** The effect of every line of the file, each taken with its own zero-based line number. */
  function Effects(lines: seq<string>): (es: seq<LineEffect>)
    ensures |es| == |lines|
    ensures forall i :: 0 <= i < |lines| ==> es[i] == TranslateLine(i, lines[i])
  {
    seq(|lines|, i requires 0 <= i < |lines| => TranslateLine(i, lines[i]))
  }

  /**
   * Writing the effects in order: the records of the lines up to the first
   * error, and that error.
   */
  function Collect(effects: seq<LineEffect>): (o: Output)
    ensures |o.records| <= |effects|
  {
    if effects == [] then Output([], None)
    else
      match effects[0]
      case Failure(e) => Output([], Some(e))
      case Success(None) => Collect(effects[1..])
      case Success(Some(rec)) =>
        var rest := Collect(effects[1..]);
        Output([rec] + rest.records, rest.error)
  }

  /** The whole run over a source file given as its lines: the header, then every line's record. */
  function Translation(lines: seq<string>): (o: Output)
    ensures |o.records| >= 1 && o.records[0] == Header
    ensures |o.records| <= |lines| + 1
  {
    var body := Collect(Effects(lines));
    Output([Header] + body.records, body.error)
  }

  /** Running `a` and then, if `a` did not abort, continuing with `b`. */
  function Then(a: Output, b: Output): Output {
    if a.error.Some? then a else Output(a.records + b.records, b.error)
  }

  /** Lines are processed one after another: writing `a + b` is writing `a` and then, unless it failed, `b`. */
  lemma {:induction false} CollectConcat(a: seq<LineEffect>, b: seq<LineEffect>)
    ensures Collect(a + b) == Then(Collect(a), Collect(b))
    decreases |a|
  {
    if a != [] {
      assert (a + b)[0] == a[0] && (a + b)[1..] == a[1..] + b;
      CollectConcat(a[1..], b);
      var x := Collect(a[1..]);
      var y := Collect(b);
      match a[0]
      case Failure(e) =>
        assert Collect(a + b) == Output([], Some(e)) == Collect(a);
      case Success(None) =>
        assert Collect(a + b) == Collect(a[1..] + b);
        assert Collect(a) == x;
      case Success(Some(rec)) =>
        assert Collect(a + b) == Output([rec] + Collect(a[1..] + b).records, Collect(a[1..] + b).error);
        assert Collect(a) == Output([rec] + x.records, x.error);
        if x.error.None? {
          assert [rec] + (x.records + y.records) == ([rec] + x.records) + y.records;
        }
    } else {
      assert a + b == b;
      assert [] + Collect(b).records == Collect(b).records;
    }
  }

  /** The effects of the first `j` lines of a file are the first `j` effects of the file. */
  lemma EffectsPrefix(lines: seq<string>, j: nat)
    requires j <= |lines|
    ensures Effects(lines[..j]) == Effects(lines)[..j]
  {
    assert forall i :: 0 <= i < j ==> lines[..j][i] == lines[i];
  }

  /**
   * Records already written stay: the output of any first part of the file is
   * a prefix of the whole output, and once the first part has failed, the rest
   * of the file changes nothing.
   */
  lemma TranslationPrefix(lines: seq<string>, j: nat)
    requires j <= |lines|
    ensures Translation(lines[..j]).records <= Translation(lines).records
    ensures Translation(lines[..j]).error.Some? ==> Translation(lines) == Translation(lines[..j])
  {
    EffectsPrefix(lines, j);
    CollectPrefix(Effects(lines), j);
  }

  /** Writing a prefix of the effects writes a prefix of the records, and all of them once it fails. */
  lemma {:induction false} CollectPrefix(effects: seq<LineEffect>, j: nat)
    requires j <= |effects|
    ensures Collect(effects[..j]).records <= Collect(effects).records
    ensures Collect(effects[..j]).error.Some? ==> Collect(effects) == Collect(effects[..j])
  {
    if j > 0 {
      var p := effects[..j];
      assert p[0] == effects[0] && p[1..] == effects[1..][..j - 1];
      CollectPrefix(effects[1..], j - 1);
      var x, y := Collect(p[1..]), Collect(effects[1..]);
      match effects[0]
      case Failure(_) =>
      case Success(None) =>
        assert Collect(p) == x && Collect(effects) == y;
      case Success(Some(rec)) =>
        assert Collect(p).records == [rec] + x.records && Collect(effects).records == [rec] + y.records;
    }
  }

  /** A failed write stopped at the first failing effect, keeping what came before it. */
  lemma {:induction false} CollectFailure(effects: seq<LineEffect>) returns (j: nat)
    requires Collect(effects).error.Some?
    ensures j < |effects|
    ensures effects[j] == Failure(Collect(effects).error.value)
    ensures forall i :: 0 <= i < j ==> effects[i].Success?
    ensures Collect(effects[..j]).error == None
    ensures Collect(effects).records == Collect(effects[..j]).records
    decreases |effects|
  {
    if effects[0].Failure? {
      j := 0;
    } else {
      var k := CollectFailure(effects[1..]);
      j := k + 1;
      assert effects[..j] == [effects[0]] + effects[1..][..k];
      CollectConcat([effects[0]], effects[1..][..k]);
    }
  }

  /**
   * A failed run stopped at a line `j`: every line before it was processed
   * without error, line `j` raised the error, and the output is exactly what
   * the lines before `j` produced, nothing for `j` or any later line.
   */
  lemma TranslationFailure(lines: seq<string>) returns (j: nat)
    requires Translation(lines).error.Some?
    ensures j < |lines|
    ensures TranslateLine(j, lines[j]) == Failure(Translation(lines).error.value)
    ensures forall i :: 0 <= i < j ==> TranslateLine(i, lines[i]).Success?
    ensures Translation(lines[..j]).error == None
    ensures Translation(lines).records == Translation(lines[..j]).records
  {
    var es := Effects(lines);
    j := CollectFailure(es);
    EffectsPrefix(lines, j);
  }

  /** A run that fails at a line: the error raised by a failing effect reaches the output. */
  lemma {:induction false} CollectFails(effects: seq<LineEffect>, j: nat)
    requires j < |effects| && effects[j].Failure?
    ensures Collect(effects).error.Some?
    decreases j
  {
    if effects[0].Success? {
      assert effects[1..][j - 1] == effects[j];
      CollectFails(effects[1..], j - 1);
    }
  }

  /** Conversely to TranslationFailure: any line that fails makes the whole run fail. */
  lemma TranslationFailsAt(lines: seq<string>, j: nat)
    requires j < |lines| && TranslateLine(j, lines[j]).Failure?
    ensures Translation(lines).error.Some?
  {
    CollectFails(Effects(lines), j);
  }

  /** Effects that are all skips write nothing and raise nothing. */
  lemma {:induction false} CollectSkipped(effects: seq<LineEffect>)
    requires forall i :: 0 <= i < |effects| ==> effects[i] == Success(None)
    ensures Collect(effects) == Output([], None)
    decreases |effects|
  {
    if effects != [] {
      assert forall i :: 0 <= i < |effects| - 1 ==> effects[1..][i] == effects[i + 1];
      CollectSkipped(effects[1..]);
    }
  }

  /** A file of blank and comment lines only yields the header record alone. */
  lemma TranslationSkipped(lines: seq<string>)
    requires forall i :: 0 <= i < |lines| ==> IsSkipped(Trim(lines[i]))
    ensures Translation(lines) == Output([Header], None)
  {
    var es := Effects(lines);
    forall i | 0 <= i < |es|
      ensures es[i] == Success(None)
    {
      assert es[i] == TranslateLine(i, lines[i]);
    }
    CollectSkipped(es);
  }

  /** The positions of the effects that write a record: exactly those, in increasing order. */
  function Emitting(effects: seq<LineEffect>): (ks: seq<nat>)
    ensures forall k :: 0 <= k < |ks| ==> ks[k] < |effects| && effects[ks[k]].Success? && effects[ks[k]].value.Some?
    ensures forall i, k :: 0 <= i < k < |ks| ==> ks[i] < ks[k]
  {
    if effects == [] then []
    else
      var m := |effects| - 1;
      var init := Emitting(effects[..m]);
      assert forall i :: 0 <= i < m ==> effects[..m][i] == effects[i];
      init + (if effects[m].Success? && effects[m].value.Some? then [m] else [])
  }

  /** Every effect that writes a record is listed among the emitting positions. */
  lemma {:induction false} EmittingComplete(effects: seq<LineEffect>, i: nat)
    requires i < |effects| && effects[i].Success? && effects[i].value.Some?
    ensures i in Emitting(effects)
    decreases |effects|
  {
    var m := |effects| - 1;
    if i < m {
      assert effects[..m][i] == effects[i];
      EmittingComplete(effects[..m], i);
    }
  }

  /**
   * A write without error consumed only successful effects and wrote one
   * record per emitting effect, in their order.
   */
  lemma {:induction false} CollectSuccess(effects: seq<LineEffect>)
    requires Collect(effects).error == None
    ensures forall i :: 0 <= i < |effects| ==> effects[i].Success?
    ensures var o := Collect(effects);
            var ks := Emitting(effects);
            && |o.records| == |ks|
            && forall k :: 0 <= k < |ks| ==> effects[ks[k]] == Success(Some(o.records[k]))
    decreases |effects|
  {
    if effects != [] {
      var m := |effects| - 1;
      var init, last := effects[..m], effects[m];
      var o, x := Collect(effects), Collect(init);
      assert last.Success? && x.error == None by {
        assert effects == init + [last];
        CollectSnoc(init, last);
      }
      var tail := if last.value.Some? then [last.value.value] else [];
      assert o.records == x.records + tail by {
        assert effects == init + [last];
        CollectSnoc(init, last);
      }
      CollectSuccess(init);
      var ks, ks0 := Emitting(effects), Emitting(init);
      assert ks == ks0 + (if last.value.Some? then [m] else []);
      forall k | 0 <= k < |ks|
        ensures effects[ks[k]] == Success(Some(o.records[k]))
      {
        if k < |ks0| {
          assert ks[k] == ks0[k] && o.records[k] == x.records[k];
          assert init[ks0[k]] == effects[ks0[k]];
        } else {
          assert ks[k] == m && o.records[k] == last.value.value;
        }
      }
      forall i | 0 <= i < |effects|
        ensures effects[i].Success?
      {
        if i < m {
          assert init[i] == effects[i];
        }
      }
    }
  }

  /** An error-free write of `init + [last]` is an error-free write of `init` followed by `last`. */
  lemma CollectSnoc(init: seq<LineEffect>, last: LineEffect)
    requires Collect(init + [last]).error == None
    ensures Collect(init).error == None && last.Success?
    ensures Collect(init + [last]).records
            == Collect(init).records + (if last.value.Some? then [last.value.value] else [])
  {
    CollectConcat(init, [last]);
    assert [last][1..] == [];
  }

  /**
   * A successful run writes the header and then one record per kept line, in
   * order: the kept lines are exactly those neither empty after trimming nor
   * starting with "//", and the k-th record after the header is what the k-th
   * kept line, taken with its physical line number (skipped lines counted),
   * translates to.
   */
  lemma TranslationSuccess(lines: seq<string>)
    requires Translation(lines).error == None
    ensures var o := Translation(lines);
            var ks := Emitting(Effects(lines));
            && |o.records| == |ks| + 1
            && (forall i :: 0 <= i < |lines| ==> (i in ks <==> !IsSkipped(Trim(lines[i]))))
            && forall k :: 0 <= k < |ks| ==> TranslateLine(ks[k], lines[ks[k]]) == Success(Some(o.records[k + 1]))
  {
    var es := Effects(lines);
    CollectSuccess(es);
    var ks := Emitting(es);
    forall i | 0 <= i < |lines|
      ensures i in ks <==> !IsSkipped(Trim(lines[i]))
    {
      assert es[i] == TranslateLine(i, lines[i]);
      if es[i].Success? && es[i].value.Some? {
        EmittingComplete(es, i);
      }
    }
  }

  /**
   * One iteration of the driver: with the run so far as `done`, the outcome
   * of line `i` either extends `done` (skip or record) or ends the run.
   */
  lemma ThenStep(effects: seq<LineEffect>, i: nat, done: seq<string>)
    requires i < |effects|
    ensures effects[i] == Success(None) ==>
              Then(Output(done, None), Collect(effects[i..])) == Then(Output(done, None), Collect(effects[i + 1..]))
    ensures effects[i].Success? && effects[i].value.Some? ==>
              Then(Output(done, None), Collect(effects[i..]))
              == Then(Output(done + [effects[i].value.value], None), Collect(effects[i + 1..]))
    ensures effects[i].Failure? ==>
              Then(Output(done, None), Collect(effects[i..])) == Output(done, Some(effects[i].error))
  {
    assert effects[i..] == [effects[i]] + effects[i + 1..];
    CollectConcat([effects[i]], effects[i + 1..]);
    var rest := Collect(effects[i + 1..]);
    if effects[i].Success? && effects[i].value.Some? {
      var rec := effects[i].value.value;
      assert Collect([effects[i]]) == Output([rec], None);
      assert (done + [rec]) + rest.records == done + ([rec] + rest.records);
    }
    if effects[i].Failure? {
      assert done + [] == done;
    }
  }

  /**
   * The driver loop: a scanner over the lines, a line counter advanced on
   * every physical line, records appended as they are produced, and the run
   * abandoned at the first error.
   */
  method Translate(lines: seq<string>) returns (output: seq<string>, error: Option<Error>)
    ensures output == Translation(lines).records
    ensures error == Translation(lines).error
  {
    ghost var effects := Effects(lines);
    var remaining := lines;
    var lineNumber: nat := 0;
    output := [Header];
    error := None;
    assert Translation(lines) == Then(Output(output, None), Collect(effects[0..]));
    while remaining != []
      invariant lineNumber <= |lines| && remaining == lines[lineNumber..]
      invariant Translation(lines) == Then(Output(output, None), Collect(effects[lineNumber..]))
    {
      ghost var raw := remaining[0];
      assert effects[lineNumber] == TranslateLine(lineNumber, raw);
      ThenStep(effects, lineNumber, output);
      var line := Trim(remaining[0]);
      remaining := remaining[1..];
      if !IsSkipped(line) {
        KeptLineHasWords(raw);
        var parts := Split(line);
        var instruction := ToUpper(parts[0]);
        var operand: int32 := 0;
        if |parts| > 1 {
          var parsed := ParseInt16(parts[1]);
          if parsed.None? {
            assert effects[lineNumber] == Failure(MalformedOperand(parts[1]));
            error := Some(MalformedOperand(parts[1]));
            return;
          }
          operand := parsed.value;
        }
        assert ReadOperand(parts) == Success(operand);
        var binary := Assemble(instruction, operand);
        if binary.Failure? {
          assert effects[lineNumber] == Failure(binary.error);
          error := Some(binary.error);
          return;
        }
        var hexLine := FormatHex2(lineNumber);
        assert effects[lineNumber] == Success(Some(hexLine + binary.value));
        output := output + [hexLine + binary.value];
      }
      lineNumber := lineNumber + 1;
    }
    assert effects[lineNumber..] == [];
  }
}
