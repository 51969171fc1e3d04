/**
  The replacement the diff handler applies as the source writes it: the format
  string `"$1" + data + "$3"`, expanded by regex_replace under the ECMAScript
  format rules. For data the format leaves alone the result is the literal
  filling of DiffTemplate; for other data it is not.
 */
module DiffFormat {
  import opened Wrappers
  import opened DiffTemplate

  predicate IsDigit(c: char)
  {
    '0' <= c <= '9'
  }

  function DigitValue(c: char): nat
    requires IsDigit(c)
  {
    c as int - '0' as int
  }

  /** Group `n` of a match, or nothing for a group number the pattern does not have. */
  function Group(groups: seq<string>, n: nat): string
  {
    if n < |groups| then groups[n] else ""
  }

  /**
    match_results::format under the ECMAScript rules as the GNU C++ library
    applies them: `$$` is a dollar, `$&` the whole match, `$\`` the text
    before the match, `$'` the text after it, `$n` or `$nn` a group (a second
    digit is always taken when there is one; a group the pattern does not
    have gives nothing), and any other `$` stands for itself.
   */
  function Expand(fmt: string, groups: seq<string>, prefix: string, suffix: string): string
    decreases |fmt|
  {
    if fmt == [] then []
    else if fmt[0] != '$' || |fmt| == 1 then [fmt[0]] + Expand(fmt[1..], groups, prefix, suffix)
    else
      var c := fmt[1];
      if c == '$' then "$" + Expand(fmt[2..], groups, prefix, suffix)
      else if c == '&' then Group(groups, 0) + Expand(fmt[2..], groups, prefix, suffix)
      else if c == '`' then prefix + Expand(fmt[2..], groups, prefix, suffix)
      else if c == '\'' then suffix + Expand(fmt[2..], groups, prefix, suffix)
      else if IsDigit(c) then
        if |fmt| > 2 && IsDigit(fmt[2])
        then Group(groups, 10 * DigitValue(c) + DigitValue(fmt[2])) + Expand(fmt[3..], groups, prefix, suffix)
        else Group(groups, DigitValue(c)) + Expand(fmt[2..], groups, prefix, suffix)
      else "$" + Expand(fmt[1..], groups, prefix, suffix)
  }

  /** A character that gives a `$` before it a meaning in a format. */
  predicate IsFormatEscape(c: char)
  {
    c == '$' || c == '&' || c == '`' || c == '\'' || IsDigit(c)
  }

  /** Every `$` of `x` is followed, inside `x`, by a character without a format meaning. */
  predicate DollarsInert(x: string)
  {
    forall i :: 0 <= i < |x| && x[i] == '$' ==> i + 1 < |x| && !IsFormatEscape(x[i + 1])
  }

  /** Data that stands for itself between `$1` and `$3`: inert dollars, and no digit first. */
  predicate FormatInert(x: string)
  {
    DollarsInert(x) && (x != [] ==> !IsDigit(x[0]))
  }

  /**
    The text regex_replace writes for the slot match `m` at the start of `t`
    under the format `"$1" + text + "$3"`, where `prefix` is the text since the
    previous match: the groups are the whole match, the opening, the body and
    the closing `\`;`.
   */
  function ReplacementAsWritten(t: string, m: SlotMatch, text: string, prefix: string): string
    requires m.openLength + m.bodyLength + 2 <= |t|
  {
    var o, e := m.openLength, m.openLength + m.bodyLength + 2;
    Expand("$1" + text + "$3", [t[..e], t[..o], t[o..e - 2], t[e - 2..e]], prefix, t[e..])
  }

  /** regex_replace of the matches of `slot` with the format `"$1" + text + "$3"`, as the source builds it. */
  function FillSlotAsWritten(t: string, slot: Matcher, text: string, prefix: string): string
    decreases |t|
  {
    if t == [] then []
    else match slot(t)
      case Some(m) =>
        if m.openLength + m.bodyLength + 2 <= |t|
        then ReplacementAsWritten(t, m, text, prefix)
             + FillSlotAsWritten(t[m.openLength + m.bodyLength + 2..], slot, text, [])
        else [t[0]] + FillSlotAsWritten(t[1..], slot, text, prefix + [t[0]])
      case None => [t[0]] + FillSlotAsWritten(t[1..], slot, text, prefix + [t[0]])
  }

  /** The diff page as the source renders it. */
  function RenderDiffAsWritten(template: string, recordingData: string, mismatchData: string): string
  {
    var withOld := FillSlotAsWritten(template, Slot("oldText"), EscapeDollarBracs(recordingData), []);
    FillSlotAsWritten(withOld, Slot("newText"), EscapeDollarBracs(mismatchData), [])
  }

  /** Text with inert dollars is copied by the format, and the `$3` after it gives group 3. */
  lemma {:induction false} ExpandInertTail(x: string, groups: seq<string>, prefix: string, suffix: string)
    requires DollarsInert(x) && |groups| == 4
    ensures Expand(x + "$3", groups, prefix, suffix) == x + groups[3]
    decreases |x|
  {
    var f := x + "$3";
    if x == [] {
      assert f == "$3";
      assert Expand(f[2..], groups, prefix, suffix) == [];
    } else {
      assert f[1..] == x[1..] + "$3";
      assert DollarsInert(x[1..]) by {
        forall i | 0 <= i < |x[1..]| && x[1..][i] == '$'
          ensures i + 1 < |x[1..]| && !IsFormatEscape(x[1..][i + 1])
        {
          assert x[i + 1] == '$';
        }
      }
      ExpandInertTail(x[1..], groups, prefix, suffix);
      if x[0] == '$' {
        assert f[1] == x[1] && !IsFormatEscape(f[1]);
      }
      assert x == [x[0]] + x[1..];
    }
  }

  /** Data that is format-inert is inserted as it is, between group 1 and group 3. */
  lemma ExpandInert(x: string, groups: seq<string>, prefix: string, suffix: string)
    requires FormatInert(x) && |groups| == 4
    ensures Expand("$1" + x + "$3", groups, prefix, suffix) == groups[1] + x + groups[3]
  {
    var f := "$1" + x + "$3";
    assert f[2..] == x + "$3";
    assert !IsDigit(f[2]) by {
      if x != [] { assert f[2] == x[0]; } else { assert f[2] == '$'; }
    }
    ExpandInertTail(x, groups, prefix, suffix);
  }

  /** A match that ends in `\`;` gets, for format-inert data, the literal replacement. */
  lemma ReplacementInert(t: string, m: SlotMatch, text: string, prefix: string)
    requires m.openLength + m.bodyLength + 2 <= |t|
    requires t[m.openLength + m.bodyLength..m.openLength + m.bodyLength + 2] == "`;"
    requires FormatInert(text)
    ensures ReplacementAsWritten(t, m, text, prefix) == t[..m.openLength] + text + "`;"
  {
    var o, e := m.openLength, m.openLength + m.bodyLength + 2;
    ExpandInert(text, [t[..e], t[..o], t[o..e - 2], t[e - 2..e]], prefix, t[e..]);
  }

  /** One step of FillAsWrittenAgrees at a match that ends in `\`;`, given agreement on the rest. */
  lemma AgreeAtMatch(t: string, slot: Matcher, text: string, prefix: string, m: SlotMatch)
    requires slot(t) == Some(m) && m.openLength + m.bodyLength + 2 <= |t|
    requires t[m.openLength + m.bodyLength..m.openLength + m.bodyLength + 2] == "`;"
    requires FormatInert(text)
    requires var e := m.openLength + m.bodyLength + 2;
             FillSlotAsWritten(t[e..], slot, text, []) == FillSlot(t[e..], slot, text)
    ensures FillSlotAsWritten(t, slot, text, prefix) == FillSlot(t, slot, text)
  {
    ReplacementInert(t, m, text, prefix);
    FillReplaces(t, slot, text, m.openLength, m.bodyLength);
  }

  /** One step of FillAsWrittenAgrees where no match that fits starts, given agreement on the rest. */
  lemma AgreeAtOther(t: string, slot: Matcher, text: string, prefix: string)
    requires t != []
    requires slot(t).None? || slot(t).value.openLength + slot(t).value.bodyLength + 2 > |t|
    requires FillSlotAsWritten(t[1..], slot, text, prefix + [t[0]]) == FillSlot(t[1..], slot, text)
    ensures FillSlotAsWritten(t, slot, text, prefix) == FillSlot(t, slot, text)
  {
  }

  /** A match of `slot` at the start of `u` that fits ends in `\`;`. */
  predicate MatchCloses(slot: Matcher, u: string)
  {
    match slot(u)
    case Some(m) => m.openLength + m.bodyLength + 2 <= |u| ==>
                      u[m.openLength + m.bodyLength..m.openLength + m.bodyLength + 2] == "`;"
    case None => true
  }

  /** Every match of `slot` ends in `\`;`, as every slot match does. */
  ghost predicate ClosesEveryMatch(slot: Matcher)
  {
    forall u :: MatchCloses(slot, u)
  }

  lemma SlotClosesEveryMatch(name: string)
    ensures ClosesEveryMatch(Slot(name))
  {
    forall u ensures MatchCloses(Slot(name), u) {
      SlotMatchCloses(name, u);
    }
  }

  lemma SlotMatchCloses(name: string, u: string)
    ensures MatchCloses(Slot(name), u)
  {
    var m := Slot(name)(u);
    assert m == SlotAt(u, name);
    if m.Some? {
      SlotAtCloses(u, name);
    }
  }

  /** For format-inert data and a matcher whose matches end in `\`;`, both fillings agree. */
  lemma {:induction false} FillAsWrittenAgreesFor(t: string, slot: Matcher, text: string, prefix: string)
    requires FormatInert(text) && ClosesEveryMatch(slot)
    ensures FillSlotAsWritten(t, slot, text, prefix) == FillSlot(t, slot, text)
    decreases |t|
  {
    if t != [] {
      if slot(t).Some? && slot(t).value.openLength + slot(t).value.bodyLength + 2 <= |t| {
        var m := slot(t).value;
        assert MatchCloses(slot, t);
        FillAsWrittenAgreesFor(t[m.openLength + m.bodyLength + 2..], slot, text, []);
        AgreeAtMatch(t, slot, text, prefix, m);
      } else {
        FillAsWrittenAgreesFor(t[1..], slot, text, prefix + [t[0]]);
        AgreeAtOther(t, slot, text, prefix);
      }
    }
  }

  /** For format-inert data the source's filling and the literal filling agree on every template. */
  lemma FillAsWrittenAgrees(t: string, name: string, text: string, prefix: string)
    requires FormatInert(text)
    ensures FillSlotAsWritten(t, Slot(name), text, prefix) == FillSlot(t, Slot(name), text)
  {
    SlotClosesEveryMatch(name);
    FillAsWrittenAgreesFor(t, Slot(name), text, prefix);
  }

  /** So the source's page is the literal one whenever both escaped data are format-inert. */
  lemma RenderAsWrittenAgrees(template: string, recordingData: string, mismatchData: string)
    requires FormatInert(EscapeDollarBracs(recordingData)) && FormatInert(EscapeDollarBracs(mismatchData))
    ensures RenderDiffAsWritten(template, recordingData, mismatchData) == RenderDiff(template, recordingData, mismatchData)
  {
    var withOld := FillSlot(template, Slot("oldText"), EscapeDollarBracs(recordingData));
    FillAsWrittenAgrees(template, "oldText", EscapeDollarBracs(recordingData), []);
    FillAsWrittenAgrees(withOld, "newText", EscapeDollarBracs(mismatchData), []);
  }

  lemma ExpandPlain(c: char, rest: string, groups: seq<string>, prefix: string, suffix: string)
    requires c != '$'
    ensures Expand([c] + rest, groups, prefix, suffix) == [c] + Expand(rest, groups, prefix, suffix)
  {
    assert ([c] + rest)[1..] == rest;
  }

  lemma ExpandDollarDollar(rest: string, groups: seq<string>, prefix: string, suffix: string)
    ensures Expand("$$" + rest, groups, prefix, suffix) == "$" + Expand(rest, groups, prefix, suffix)
  {
    assert ("$$" + rest)[2..] == rest;
  }

  lemma ExpandTwoDigits(d1: char, d2: char, rest: string, groups: seq<string>, prefix: string, suffix: string)
    requires IsDigit(d1) && IsDigit(d2)
    ensures Expand(['$', d1, d2] + rest, groups, prefix, suffix)
            == Group(groups, 10 * DigitValue(d1) + DigitValue(d2)) + Expand(rest, groups, prefix, suffix)
  {
    assert (['$', d1, d2] + rest)[3..] == rest;
  }

  lemma ExpandLastGroup(d: char, groups: seq<string>, prefix: string, suffix: string)
    requires IsDigit(d)
    ensures Expand(['$', d], groups, prefix, suffix) == Group(groups, DigitValue(d))
  {
    assert ['$', d][2..] == [];
  }

  /**
    Data starting with a digit fuses with `$1` into a two-digit group number
    the pattern does not have: of `$142\n$3` only `2\n` and group 3 are left.
   */
  lemma ExpandLeadingDigit(groups: seq<string>, prefix: string, suffix: string)
    requires |groups| == 4
    ensures Expand("$1" + "42\n" + "$3", groups, prefix, suffix) == "2\n" + groups[3]
  {
    var rest := "2\n$3";
    assert "$1" + "42\n" + "$3" == ['$', '1', '4'] + rest;
    ExpandTwoDigits('1', '4', rest, groups, prefix, suffix);
    assert rest == ['2'] + ("\n" + "$3");
    ExpandPlain('2', "\n" + "$3", groups, prefix, suffix);
    assert "\n" + "$3" == ['\n'] + ['$', '3'];
    ExpandPlain('\n', ['$', '3'], groups, prefix, suffix);
    ExpandLastGroup('3', groups, prefix, suffix);
  }

  /** Data ending in `$` fuses with `$3` into `$$` and a plain `3`: of `$1a$$3` group 1, `a`, `$` and `3` are left. */
  lemma ExpandTrailingDollar(groups: seq<string>, prefix: string, suffix: string)
    requires |groups| == 4
    ensures Expand("$1" + "a$" + "$3", groups, prefix, suffix) == groups[1] + "a$3"
  {
    var f := "$1" + "a$" + "$3";
    assert f[0] == '$' && f[1] == '1' && f[2] == 'a';
    assert f[2..] == ['a'] + ("$$" + "3");
    ExpandPlain('a', "$$" + "3", groups, prefix, suffix);
    ExpandDollarDollar("3", groups, prefix, suffix);
    assert "3" == ['3'] + [];
    ExpandPlain('3', [], groups, prefix, suffix);
  }

  /** At a slot match, data starting with a digit loses the opening: `"42\n"` is replaced by `2\n\`;`. */
  lemma LeadingDigitDropsOpening(t: string, m: SlotMatch, prefix: string)
    requires m.openLength + m.bodyLength + 2 <= |t|
    requires t[m.openLength + m.bodyLength..m.openLength + m.bodyLength + 2] == "`;"
    ensures ReplacementAsWritten(t, m, "42\n", prefix) == "2\n`;"
  {
    var o, e := m.openLength, m.openLength + m.bodyLength + 2;
    ExpandLeadingDigit([t[..e], t[..o], t[o..e - 2], t[e - 2..e]], prefix, t[e..]);
  }

  /** At a slot match, data ending in `$` loses the closing: `a$` is replaced by the opening and `a$3`. */
  lemma TrailingDollarDropsClosing(t: string, m: SlotMatch, prefix: string)
    requires m.openLength + m.bodyLength + 2 <= |t|
    ensures ReplacementAsWritten(t, m, "a$", prefix) == t[..m.openLength] + "a$3"
  {
    var o, e := m.openLength, m.openLength + m.bodyLength + 2;
    ExpandTrailingDollar([t[..e], t[..o], t[o..e - 2], t[e - 2..e]], prefix, t[e..]);
  }
}
