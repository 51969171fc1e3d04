/**
  The text rewriting of the diff handler: escaping `${...}` in the recorded
  and new data, and filling the `oldText` / `newText` slots of the
  visualisation template. The two fixed regular expressions of the source are
  written out as functions that give the same leftmost, non-overlapping,
  left-to-right matches as regex_replace does for these patterns.
 */
module DiffTemplate {
  import opened Strings
  import opened Wrappers

  // ---------------------------------------------------------------------------
  // Escaping `${...}`: pattern \$\{[^}]+\}, replacement \$&

  /**
    Length of the match of `\$\{[^}]+\}` at the start of `s`, or 0 when there is
    none: `${`, then at least one character other than `}`, up to the first `}`.
   */
  function PlaceholderLength(s: string): (n: nat)
    ensures n == 0 || (4 <= n <= |s| && s[0] == '$' && s[1] == '{' && s[n - 1] == '}')
    ensures n > 0 ==> forall i :: 2 <= i < n - 1 ==> s[i] != '}'
  {
    if |s| >= 2 && s[0] == '$' && s[1] == '{' then
      var k := IndexOf(s[2..], '}');
      if 0 < k < |s| - 2 then k + 3 else 0
    else 0
  }

  /** Prefixes a backslash to every match of the placeholder pattern, scanning left to right. */
  function EscapeDollarBracs(s: string): string
    decreases |s|
  {
    if s == [] then []
    else if PlaceholderLength(s) > 0 then
      var n := PlaceholderLength(s);
      "\\" + s[..n] + EscapeDollarBracs(s[n..])
    else [s[0]] + EscapeDollarBracs(s[1..])
  }

  /** Drops a backslash wherever one stands right before a placeholder match. */
  function UnescapeDollarBracs(t: string): string
    decreases |t|
  {
    if t == [] then []
    else if t[0] == '\\' && PlaceholderLength(t[1..]) > 0 then
      var n := PlaceholderLength(t[1..]);
      t[1..1 + n] + UnescapeDollarBracs(t[1 + n..])
    else [t[0]] + UnescapeDollarBracs(t[1..])
  }

  /** A placeholder match is decided by its own characters: text after it does not change it. */
  lemma PlaceholderLengthPrefix(s: string, t: string)
    requires PlaceholderLength(s) == |s| > 0
    ensures PlaceholderLength(s + t) == |s|
  {
    IndexOfAppend(s[2..], t, '}');
    assert (s + t)[2..] == s[2..] + t;
  }

  /** Escaping adds only backslashes: every other character occurs in the output iff it occurs in the input. */
  lemma {:induction false} EscapeKeepsCharacters(s: string, c: char)
    requires c != '\\'
    ensures c in EscapeDollarBracs(s) <==> c in s
    decreases |s|
  {
    if s != [] {
      var n := PlaceholderLength(s);
      if n > 0 {
        EscapeKeepsCharacters(s[n..], c);
        assert s == s[..n] + s[n..];
        KeepsAtMatch(s[..n], s[n..], c);
      } else {
        EscapeKeepsCharacters(s[1..], c);
        KeepsAtPlain(s, c);
      }
    }
  }

  lemma KeepsAtMatch(m: string, rest: string, c: char)
    requires c != '\\' && PlaceholderLength(m + rest) == |m| > 0
    requires c in EscapeDollarBracs(rest) <==> c in rest
    ensures c in EscapeDollarBracs(m + rest) <==> c in m + rest
  {
    EscapeAtMatch(m, rest);
  }

  lemma KeepsAtPlain(s: string, c: char)
    requires s != [] && PlaceholderLength(s) == 0
    requires c in EscapeDollarBracs(s[1..]) <==> c in s[1..]
    ensures c in EscapeDollarBracs(s) <==> c in s
  {
    EscapeAtPlain(s);
    assert s == [s[0]] + s[1..];
  }

  /** Escaping keeps the first character unless it puts a backslash there. */
  lemma EscapeHead(s: string)
    requires s != []
    ensures EscapeDollarBracs(s) != []
    ensures EscapeDollarBracs(s)[0] == if PlaceholderLength(s) > 0 then '\\' else s[0]
  {
  }

  /** `${`, a non-empty body without `}`, and `}` form a match as a whole, whatever follows. */
  lemma PlaceholderMatches(body: string, rest: string)
    requires body != [] && '}' !in body
    ensures PlaceholderLength("${" + body + "}" + rest) == |body| + 3
  {
    var s := "${" + body + "}" + rest;
    assert s[2..] == body + ("}" + rest);
    assert IndexOf(body, '}') == |body|;
    IndexOfAppend(body, "}" + rest, '}');
  }

  /** Escaping prefixes a backslash to such a match and carries on after it. */
  lemma EscapeAtPlaceholder(body: string, rest: string)
    requires body != [] && '}' !in body
    ensures EscapeDollarBracs("${" + body + "}" + rest) == "\\${" + body + "}" + EscapeDollarBracs(rest)
  {
    var m := "${" + body + "}";
    PlaceholderMatches(body, rest);
    EscapeAtMatch(m, rest);
    BackslashPlaceholder(body, EscapeDollarBracs(rest));
  }

  /** Escaping a text that starts with the match `m` puts a backslash before `m` and escapes the rest. */
  lemma EscapeAtMatch(m: string, rest: string)
    requires PlaceholderLength(m + rest) == |m| > 0
    ensures EscapeDollarBracs(m + rest) == "\\" + m + EscapeDollarBracs(rest)
  {
    SplitAt(m, rest);
  }

  /** Escaping a text that does not start with a match keeps its first character and escapes the rest. */
  lemma EscapeAtPlain(s: string)
    requires s != [] && PlaceholderLength(s) == 0
    ensures EscapeDollarBracs(s) == [s[0]] + EscapeDollarBracs(s[1..])
  {
  }

  lemma BackslashPlaceholder(body: string, e: string)
    ensures "\\" + ("${" + body + "}") + e == "\\${" + body + "}" + e
  {
  }

  /** The escaped text never starts with a placeholder match. */
  lemma EscapedStartsWithoutPlaceholder(s: string)
    ensures PlaceholderLength(EscapeDollarBracs(s)) == 0
  {
    var e := EscapeDollarBracs(s);
    if s != [] && PlaceholderLength(s) == 0 && s[0] == '$' && |s| >= 2 {
      var r := s[1..];
      // e == "$" + Escape(r); a match would need Escape(r) to start with '{'
      if r[0] == '{' {
        assert PlaceholderLength(r) == 0;
        var u := r[1..];
        assert EscapeDollarBracs(r) == "{" + EscapeDollarBracs(u);
        assert e[2..] == EscapeDollarBracs(u);
        // s has no match: the first '}' after "${" is right there, or there is none
        var k := IndexOf(s[2..], '}');
        assert s[2..] == u;
        if u == [] {
          assert e[2..] == [];
        } else if k == 0 {
          EscapeHead(u);
        } else {
          assert '}' !in u;
          EscapeKeepsCharacters(u, '}');
          assert IndexOf(e[2..], '}') == |e[2..]|;
        }
      }
    }
  }

  /** Unescaping reads a backslash followed by a match as exactly that match. */
  lemma UnescapeAtMatch(m: string, rest: string)
    requires PlaceholderLength(m) == |m| > 0
    ensures UnescapeDollarBracs("\\" + m + rest) == m + UnescapeDollarBracs(rest)
  {
    var t := "\\" + m + rest;
    assert t[1..] == m + rest;
    PlaceholderLengthPrefix(m, rest);
    assert t[1..1 + |m|] == m;
    assert t[1 + |m|..] == rest;
  }

  /** Unescaping copies a character that is not followed by a match. */
  lemma UnescapeAtOther(c: char, rest: string)
    requires PlaceholderLength(rest) == 0
    ensures UnescapeDollarBracs([c] + rest) == [c] + UnescapeDollarBracs(rest)
  {
    var t := [c] + rest;
    assert t[1..] == rest;
  }

  /** The match at the start of `s` is a match of its own prefix. */
  lemma PlaceholderIsWholeMatch(s: string)
    requires PlaceholderLength(s) > 0
    ensures PlaceholderLength(s[..PlaceholderLength(s)]) == PlaceholderLength(s)
  {
    var n := PlaceholderLength(s);
    assert s[..n][2..] == s[2..n];
    IndexOfAppend(s[2..n], s[n..], '}');
    assert s[2..] == s[2..n] + s[n..];
  }

  /** Escaping loses nothing: removing the inserted backslashes gives back the input. */
  lemma {:induction false} UnescapeEscape(s: string)
    ensures UnescapeDollarBracs(EscapeDollarBracs(s)) == s
    decreases |s|
  {
    if s != [] {
      var n := PlaceholderLength(s);
      if n > 0 {
        var m, r := s[..n], s[n..];
        PlaceholderIsWholeMatch(s);
        calc {
          UnescapeDollarBracs(EscapeDollarBracs(s));
          UnescapeDollarBracs("\\" + m + EscapeDollarBracs(r));
          { UnescapeAtMatch(m, EscapeDollarBracs(r)); }
          m + UnescapeDollarBracs(EscapeDollarBracs(r));
          { UnescapeEscape(r); }
          m + r;
          { assert s == m + r; }
          s;
        }
      } else {
        var r := s[1..];
        calc {
          UnescapeDollarBracs(EscapeDollarBracs(s));
          UnescapeDollarBracs([s[0]] + EscapeDollarBracs(r));
          { EscapedStartsWithoutPlaceholder(r); UnescapeAtOther(s[0], EscapeDollarBracs(r)); }
          [s[0]] + UnescapeDollarBracs(EscapeDollarBracs(r));
          { UnescapeEscape(r); }
          [s[0]] + r;
          { assert s == [s[0]] + r; }
          s;
        }
      }
    }
  }

  /** Text without any placeholder match is left as it is. */
  lemma {:induction false} EscapeWithoutPlaceholder(s: string)
    requires forall i :: 0 <= i < |s| ==> PlaceholderLength(s[i..]) == 0
    ensures EscapeDollarBracs(s) == s
    decreases |s|
  {
    if s != [] {
      var r := s[1..];
      assert s[0..] == s;
      forall i | 0 <= i < |r|
        ensures PlaceholderLength(r[i..]) == 0
      {
        assert r[i..] == s[i + 1..];
      }
      EscapeWithoutPlaceholder(r);
      calc {
        EscapeDollarBracs(s);
        [s[0]] + EscapeDollarBracs(r);
        [s[0]] + r;
        { assert s == [s[0]] + r; }
        s;
      }
    }
  }

  // ---------------------------------------------------------------------------
  // Filling a slot: pattern (const\s+NAME\s*=\s*`)([^`]*)(`;), replacement $1 + text + $3

  /** The characters `\s` stands for in the C locale: space, tab, line feed, vertical tab, form feed, carriage return. */
  predicate IsSpace(c: char)
  {
    c == ' ' || 9 <= c as int <= 13
  }

  predicate AllSpace(s: string)
  {
    forall i :: 0 <= i < |s| ==> IsSpace(s[i])
  }

  /** Length of the run of white space at the start of `s`. */
  function SpaceRun(s: string): (n: nat)
    ensures n <= |s|
  {
    if s != [] && IsSpace(s[0]) then 1 + SpaceRun(s[1..]) else 0
  }

  /** Length of `\s*\`` at the start of `u`, or 0 when it is not there. */
  function TickLength(u: string): (n: nat)
    ensures n <= |u|
  {
    var k := SpaceRun(u);
    if k < |u| && u[k] == '`' then k + 1 else 0
  }

  /** Length of `NAME\s*=\s*\`` at the start of `u`, or 0 when it is not there. */
  function NameLength(u: string, name: string): (n: nat)
    ensures n <= |u|
  {
    if |u| < |name| || u[..|name|] != name then 0
    else
      var v := u[|name|..];
      var k := SpaceRun(v);
      if k < |v| && v[k] == '=' then
        var r := TickLength(v[k + 1..]);
        if r == 0 then 0 else |name| + k + 1 + r
      else 0
  }

  /**
    Length of the opening `const\s+NAME\s*=\s*\`` at the start of `t`, or 0.
    Each white-space run is followed by a character that is not white space
    (for a name that does not start with white space), so the greedy runs are
    the only way the pattern can match.
   */
  function OpeningLength(t: string, name: string): (n: nat)
    ensures n <= |t|
  {
    if |t| < 5 || t[..5] != "const" then 0
    else
      var u := t[5..];
      var k := SpaceRun(u);
      if k == 0 then 0
      else
        var r := NameLength(u[k..], name);
        if r == 0 then 0 else 5 + k + r
  }

  /** A slot match at the start of a text: the length of its opening and of its body. */
  datatype SlotMatch = SlotMatch(openLength: nat, bodyLength: nat)

  /**
    The match of the slot pattern at the start of `t`, if any: an opening, a
    body without backticks, and the closing `\`;`. The body runs to the first
    backtick, so the match is unique.
   */
  function SlotAt(t: string, name: string): (m: Option<SlotMatch>)
    ensures m.Some? ==> m.value.openLength > 0 && m.value.openLength + m.value.bodyLength + 2 <= |t|
  {
    var o := OpeningLength(t, name);
    if o == 0 then None else SlotFrom(t, o)
  }

  /** The rest of a slot match after an opening of length `o`: the body up to the first backtick, if `;` follows. */
  function SlotFrom(t: string, o: nat): (m: Option<SlotMatch>)
    requires o <= |t|
    ensures m.Some? ==> m.value.openLength == o && o + m.value.bodyLength + 2 <= |t|
  {
    var k := IndexOf(t[o..], '`');
    if o + k + 1 < |t| && t[o + k + 1] == ';' then Some(SlotMatch(o, k)) else None
  }

  /** A pattern matcher for regex_replace: what it matches at the start of a text, if anything. */
  type Matcher = string -> Option<SlotMatch>

  /** The slot pattern for `name`. */
  function Slot(name: string): Matcher
  {
    u => SlotAt(u, name)
  }

  /**
    regex_replace of every match of `slot` in `t`, scanning left to right:
    each body becomes `text`, the opening and the closing `\`;` stay. A match
    that would run past the end of the text is ignored; SlotAt has none.
   */
  function FillSlot(t: string, slot: Matcher, text: string): string
    decreases |t|
  {
    if t == [] then []
    else match slot(t)
      case Some(m) =>
        if m.openLength + m.bodyLength + 2 <= |t|
        then t[..m.openLength] + text + "`;" + FillSlot(t[m.openLength + m.bodyLength + 2..], slot, text)
        else [t[0]] + FillSlot(t[1..], slot, text)
      case None => [t[0]] + FillSlot(t[1..], slot, text)
  }

  /** The rendered diff page: both slots filled with the escaped data. */
  function RenderDiff(template: string, recordingData: string, mismatchData: string): string
  {
    var withOld := FillSlot(template, Slot("oldText"), EscapeDollarBracs(recordingData));
    FillSlot(withOld, Slot("newText"), EscapeDollarBracs(mismatchData))
  }

  /** Where no slot starts, filling copies one character and moves on. */
  lemma FillCopies(t: string, slot: Matcher, text: string)
    requires t != [] && slot(t).None?
    ensures FillSlot(t, slot, text) == [t[0]] + FillSlot(t[1..], slot, text)
  {
  }

  /** Where a slot starts, filling keeps its opening, replaces its body and keeps `\`;`. */
  lemma FillReplaces(t: string, slot: Matcher, text: string, open: nat, body: nat)
    requires slot(t) == Some(SlotMatch(open, body)) && open + body + 2 <= |t|
    ensures FillSlot(t, slot, text) == t[..open] + text + "`;" + FillSlot(t[open + body + 2..], slot, text)
  {
  }

  /** No slot starts at position `i` of `t`. */
  predicate NoSlotAt(t: string, i: nat, slot: Matcher)
    requires i <= |t|
  {
    slot(t[i..]).None?
  }

  lemma DropAfterHead(pre: string, rest: string)
    requires pre != []
    ensures (pre + rest)[1..] == pre[1..] + rest
  {
  }

  /** Text before the first slot is copied unchanged. */
  lemma {:induction false} FillSkipsPrefix(pre: string, rest: string, slot: Matcher, text: string)
    requires forall i :: 0 <= i < |pre| ==> NoSlotAt(pre + rest, i, slot)
    ensures FillSlot(pre + rest, slot, text) == pre + FillSlot(rest, slot, text)
    decreases |pre|
  {
    if pre != [] {
      var t := pre + rest;
      assert NoSlotAt(t, 0, slot);
      assert t[0..] == t;
      DropAfterHead(pre, rest);
      FillCopies(t, slot, text);
      forall i | 0 <= i < |pre[1..]|
        ensures NoSlotAt(pre[1..] + rest, i, slot)
      {
        assert NoSlotAt(t, i + 1, slot);
        assert (pre[1..] + rest)[i..] == t[i + 1..];
      }
      FillSkipsPrefix(pre[1..], rest, slot, text);
      calc {
        FillSlot(t, slot, text);
        [t[0]] + FillSlot(t[1..], slot, text);
        { assert t[0] == pre[0]; }
        [pre[0]] + FillSlot(pre[1..] + rest, slot, text);
        [pre[0]] + (pre[1..] + FillSlot(rest, slot, text));
        { assert pre == [pre[0]] + pre[1..]; }
        pre + FillSlot(rest, slot, text);
      }
    } else {
      assert pre + rest == rest;
    }
  }

  /** A text without any slot is left as it is. */
  lemma FillWithoutSlot(t: string, slot: Matcher, text: string)
    requires forall i :: 0 <= i < |t| ==> NoSlotAt(t, i, slot)
    ensures FillSlot(t, slot, text) == t
  {
    assert t + [] == t;
    FillSkipsPrefix(t, [], slot, text);
  }

  /** A white-space run ends where the first other character stands. */
  lemma {:induction false} SpaceRunOf(s: string, rest: string)
    requires AllSpace(s)
    requires rest != [] && !IsSpace(rest[0])
    ensures SpaceRun(s + rest) == |s|
    decreases |s|
  {
    if s != [] {
      assert (s + rest)[1..] == s[1..] + rest;
      SpaceRunOf(s[1..], rest);
    } else {
      assert s + rest == rest;
    }
  }

  /** `\s*\`` written out is recognised, whatever follows it. */
  lemma TickRecognised(s3: string, x: string)
    requires AllSpace(s3)
    ensures TickLength(s3 + "`" + x) == |s3| + 1
  {
    assert s3 + "`" + x == s3 + ("`" + x);
    SpaceRunOf(s3, "`" + x);
  }

  /** `NAME\s*=\s*\`` written out is recognised, whatever follows it. */
  lemma NameRecognised(name: string, s2: string, s3: string, x: string)
    requires AllSpace(s2) && AllSpace(s3)
    ensures NameLength(name + s2 + "=" + s3 + "`" + x, name) == |name| + |s2| + 1 + |s3| + 1
  {
    var w := s3 + "`" + x;
    var u := name + (s2 + ("=" + w));
    assert u == name + s2 + "=" + s3 + "`" + x;
    assert u[..|name|] == name;
    var v := u[|name|..];
    assert v == s2 + ("=" + w);
    SpaceRunOf(s2, "=" + w);
    assert v[|s2|] == '=';
    assert v[|s2| + 1..] == w;
    TickRecognised(s3, x);
  }

  /** An opening `const NAME = \`` written out with the white space `s1`, `s2` and `s3`. */
  function Opening(s1: string, name: string, s2: string, s3: string): string
  {
    "const" + s1 + name + s2 + "=" + s3 + "`"
  }

  /** An opening written out by its grammar is recognised in full, whatever follows it. */
  lemma OpeningRecognised(s1: string, name: string, s2: string, s3: string, x: string)
    requires name != [] && !IsSpace(name[0])
    requires s1 != [] && AllSpace(s1) && AllSpace(s2) && AllSpace(s3)
    ensures OpeningLength(Opening(s1, name, s2, s3) + x, name) == |Opening(s1, name, s2, s3)|
  {
    var r := name + s2 + "=" + s3 + "`" + x;
    var u := s1 + r;
    OpeningSplit(s1, name, s2, s3, x);
    SplitAt("const", u);
    SplitAt(s1, r);
    SpaceRunOf(s1, r);
    NameRecognised(name, s2, s3, x);
    OpeningOf("const" + u, name, |s1|, |r| - |x|);
  }

  /** The opening followed by `x`, regrouped as the stages of OpeningLength read it. */
  lemma OpeningSplit(s1: string, name: string, s2: string, s3: string, x: string)
    ensures Opening(s1, name, s2, s3) + x == "const" + (s1 + (name + s2 + "=" + s3 + "`" + x))
    ensures |Opening(s1, name, s2, s3)| == 5 + |s1| + |name| + |s2| + 1 + |s3| + 1
  {
  }

  /** The two parts of a concatenation, taken back apart. */
  lemma SplitAt(a: string, y: string)
    ensures (a + y)[..|a|] == a && (a + y)[|a|..] == y
  {
  }

  /** OpeningLength once its three stages are known. */
  lemma OpeningOf(t: string, name: string, k: nat, r: nat)
    requires |t| >= 5 && t[..5] == "const"
    requires SpaceRun(t[5..]) == k > 0
    requires NameLength(t[5..][k..], name) == r > 0
    ensures OpeningLength(t, name) == 5 + k + r
  {
  }

  /** A slot written out by its grammar, with a body free of backticks, is matched with that body. */
  lemma SlotRecognised(s1: string, name: string, s2: string, s3: string, body: string, post: string)
    requires name != [] && !IsSpace(name[0])
    requires s1 != [] && AllSpace(s1) && AllSpace(s2) && AllSpace(s3)
    requires '`' !in body
    ensures var open := Opening(s1, name, s2, s3);
            SlotAt(open + body + "`;" + post, name) == Some(SlotMatch(|open|, |body|))
  {
    var open := Opening(s1, name, s2, s3);
    var x := body + ("`;" + post);
    SlotSplit(open, body, post);
    OpeningRecognised(s1, name, s2, s3, x);
    CloseFound(body, post);
    SplitAt(open, x);
    SuffixIndex(open, x, |body| + 1);
    SlotAtOf(open + x, name, |open|, |body|);
  }

  lemma SlotSplit(open: string, body: string, post: string)
    ensures open + body + "`;" + post == open + (body + ("`;" + post))
  {
  }

  /** In a body without backticks followed by `\`;`, the first backtick is the closing one. */
  lemma CloseFound(body: string, post: string)
    requires '`' !in body
    ensures IndexOf(body + ("`;" + post), '`') == |body|
    ensures |body + ("`;" + post)| == |body| + 2 + |post|
    ensures (body + ("`;" + post))[|body| + 1] == ';'
  {
    var close := "`;" + post;
    assert close[0] == '`';
    assert IndexOf(close, '`') == 0;
    assert IndexOf(body, '`') == |body|;
    IndexOfAppend(body, close, '`');
  }

  lemma SuffixIndex(a: string, x: string, i: nat)
    requires i < |x|
    ensures (a + x)[|a| + i] == x[i]
  {
  }

  /** SlotAt once the opening and the closing backtick are known. */
  lemma SlotAtOf(t: string, name: string, o: nat, k: nat)
    requires OpeningLength(t, name) == o > 0
    requires IndexOf(t[o..], '`') == k
    requires o + k + 1 < |t| && t[o + k + 1] == ';'
    ensures SlotAt(t, name) == Some(SlotMatch(o, k))
  {
  }

  /** The greedy white-space run is white space, and the character after it is not. */
  lemma {:induction false} SpaceRunSound(s: string)
    ensures AllSpace(s[..SpaceRun(s)])
    ensures SpaceRun(s) < |s| ==> !IsSpace(s[SpaceRun(s)])
    decreases |s|
  {
    if s != [] && IsSpace(s[0]) {
      SpaceRunSound(s[1..]);
      var k := SpaceRun(s[1..]);
      assert s[..k + 1] == [s[0]] + s[1..][..k];
    }
  }

  /** A recognised `\s*\`` is a white-space run and the backtick. */
  lemma TickSound(y: string) returns (s3: string)
    requires TickLength(y) > 0
    ensures AllSpace(s3) && y[..TickLength(y)] == s3 + "`"
  {
    var k := SpaceRun(y);
    SpaceRunSound(y);
    s3 := y[..k];
    assert y[..k + 1] == y[..k] + [y[k]];
  }

  /** A recognised `NAME\s*=\s*\`` is the name, a white-space run, `=`, a white-space run and the backtick. */
  lemma NameSound(w: string, name: string) returns (s2: string, s3: string)
    requires NameLength(w, name) > 0
    ensures AllSpace(s2) && AllSpace(s3)
    ensures w[..NameLength(w, name)] == name + s2 + "=" + s3 + "`"
  {
    var v := w[|name|..];
    var k := SpaceRun(v);
    var r := TickLength(v[k + 1..]);
    assert NameLength(w, name) == |name| + k + 1 + r;
    s2, s3 := NameSoundAt(w, name, k, r);
  }

  /** NameSound once the stages of NameLength are known. */
  lemma NameSoundAt(w: string, name: string, k: nat, r: nat) returns (s2: string, s3: string)
    requires |name| <= |w| && w[..|name|] == name
    requires SpaceRun(w[|name|..]) == k < |w[|name|..]| && w[|name|..][k] == '='
    requires TickLength(w[|name|..][k + 1..]) == r > 0
    ensures |name| + k + 1 + r <= |w|
    ensures AllSpace(s2) && AllSpace(s3)
    ensures w[..|name| + k + 1 + r] == name + s2 + "=" + s3 + "`"
  {
    var v := w[|name|..];
    var y := v[k + 1..];
    SpaceRunSound(v);
    s2 := v[..k];
    s3 := TickSound(y);
    var n := |name| + k + 1 + r;
    assert y[..r] == v[k + 1..k + 1 + r];
    assert v[..k + 1 + r] == s2 + "=" + y[..r];
    assert w[|name|..n] == v[..k + 1 + r];
    calc {
      w[..n];
      { assert w[..n] == w[..|name|] + w[|name|..n]; }
      name + (s2 + "=" + (s3 + "`"));
      { NameParts(name, s2, s3); }
      name + s2 + "=" + s3 + "`";
    }
  }

  lemma NameParts(name: string, s2: string, s3: string)
    ensures name + (s2 + "=" + (s3 + "`")) == name + s2 + "=" + s3 + "`"
  {
  }

  /** A recognised opening is `const`, a non-empty white-space run and the rest of the opening grammar. */
  lemma OpeningSound(t: string, name: string) returns (s1: string, s2: string, s3: string)
    requires OpeningLength(t, name) > 0
    ensures s1 != [] && AllSpace(s1) && AllSpace(s2) && AllSpace(s3)
    ensures t[..OpeningLength(t, name)] == Opening(s1, name, s2, s3)
  {
    var k := SpaceRun(t[5..]);
    var r := NameLength(t[5..][k..], name);
    assert OpeningLength(t, name) == 5 + k + r;
    s1, s2, s3 := OpeningSoundAt(t, name, k, r);
  }

  /** OpeningSound once the stages of OpeningLength are known. */
  lemma OpeningSoundAt(t: string, name: string, k: nat, r: nat) returns (s1: string, s2: string, s3: string)
    requires |t| >= 5 && t[..5] == "const"
    requires SpaceRun(t[5..]) == k > 0
    requires NameLength(t[5..][k..], name) == r > 0
    ensures 5 + k + r <= |t|
    ensures s1 != [] && AllSpace(s1) && AllSpace(s2) && AllSpace(s3)
    ensures t[..5 + k + r] == Opening(s1, name, s2, s3)
  {
    var u := t[5..];
    var w := u[k..];
    SpaceRunSound(u);
    s1 := u[..k];
    s2, s3 := NameSound(w, name);
    var tail := w[..r];
    assert u[..k + r] == s1 + tail;
    calc {
      t[..5 + k + r];
      { assert t[..5 + k + r] == t[..5] + t[5..5 + k + r]; }
      "const" + t[5..5 + k + r];
      { assert t[5..5 + k + r] == u[..k + r]; }
      "const" + (s1 + tail);
      { OpeningParts(s1, name, s2, s3); }
      Opening(s1, name, s2, s3);
    }
  }

  lemma OpeningParts(s1: string, name: string, s2: string, s3: string)
    ensures Opening(s1, name, s2, s3) == "const" + (s1 + (name + s2 + "=" + s3 + "`"))
  {
  }

  /**
    Every slot match is an opening written by its grammar, a body without
    backticks and the closing `\`;`: the converse of SlotRecognised.
   */
  lemma SlotAtSound(t: string, name: string) returns (s1: string, s2: string, s3: string)
    requires SlotAt(t, name).Some?
    ensures var m := SlotAt(t, name).value;
            var o, e := m.openLength, m.openLength + m.bodyLength;
            && s1 != [] && AllSpace(s1) && AllSpace(s2) && AllSpace(s3)
            && t[..o] == Opening(s1, name, s2, s3)
            && '`' !in t[o..e]
            && t[e..e + 2] == "`;"
  {
    s1, s2, s3 := OpeningSound(t, name);
    SlotAtCloses(t, name);
  }

  /** The closing half of SlotAtSound: a backtick-free body, then `\`;`. */
  lemma SlotAtCloses(t: string, name: string)
    requires SlotAt(t, name).Some?
    ensures var m := SlotAt(t, name).value;
            var o, e := m.openLength, m.openLength + m.bodyLength;
            '`' !in t[o..e] && t[e..e + 2] == "`;"
  {
    var o := OpeningLength(t, name);
    assert SlotAt(t, name) == SlotFrom(t, o);
    SlotFromCloses(t, o);
  }

  lemma SlotFromCloses(t: string, o: nat)
    requires o <= |t| && SlotFrom(t, o).Some?
    ensures var e := o + SlotFrom(t, o).value.bodyLength;
            '`' !in t[o..e] && t[e..e + 2] == "`;"
  {
    SlotCloses(t, o, SlotFrom(t, o).value.bodyLength);
  }

  /** The body of a slot match runs to the first backtick, which the `;` follows. */
  lemma SlotCloses(t: string, o: nat, k: nat)
    requires o <= |t| && IndexOf(t[o..], '`') == k
    requires o + k + 1 < |t| && t[o + k + 1] == ';'
    ensures '`' !in t[o..o + k] && t[o + k..o + k + 2] == "`;"
  {
    var b := t[o..o + k];
    assert b == t[o..][..k];
    assert t[o + k] == t[o..][k];
    assert t[o + k..o + k + 2] == [t[o + k], t[o + k + 1]];
  }

  /**
    In a template with one slot named `name`, filling replaces exactly the
    body between `const NAME = \`` and `\`;` and keeps everything else,
    delimiters included.
   */
  lemma FillSingleSlot(pre: string, s1: string, s2: string, s3: string, body: string, post: string,
                       name: string, text: string)
    requires name != [] && !IsSpace(name[0])
    requires s1 != [] && AllSpace(s1) && AllSpace(s2) && AllSpace(s3)
    requires '`' !in body
    requires var t := pre + Opening(s1, name, s2, s3) + body + "`;" + post;
             forall i :: 0 <= i < |pre| ==> NoSlotAt(t, i, Slot(name))
    requires forall i :: 0 <= i < |post| ==> NoSlotAt(post, i, Slot(name))
    ensures var open := Opening(s1, name, s2, s3);
            FillSlot(pre + open + body + "`;" + post, Slot(name), text) == pre + open + text + "`;" + post
  {
    var open := Opening(s1, name, s2, s3);
    var slot := Slot(name);
    var rest := open + body + "`;" + post;
    Regroup(pre, open, body, "`;", post);
    FillSkipsPrefix(pre, rest, slot, text);
    SlotRecognised(s1, name, s2, s3, body, post);
    var o := |open|;
    FillReplaces(rest, slot, text, o, |body|);
    SlotParts(open, body, post);
    FillWithoutSlot(post, slot, text);
    calc {
      FillSlot(pre + open + body + "`;" + post, slot, text);
      { Regroup(pre, open, body, "`;", post); }
      FillSlot(pre + rest, slot, text);
      pre + FillSlot(rest, slot, text);
      pre + (rest[..o] + text + "`;" + FillSlot(rest[o + |body| + 2..], slot, text));
      pre + (open + text + "`;" + FillSlot(post, slot, text));
      pre + (open + text + "`;" + post);
      { Regroup(pre, open, text, "`;", post); }
      pre + open + text + "`;" + post;
    }
  }

  lemma SlotParts(open: string, body: string, post: string)
    ensures (open + body + "`;" + post)[..|open|] == open
    ensures (open + body + "`;" + post)[|open| + |body| + 2..] == post
  {
  }

  lemma Regroup(a: string, b: string, c: string, d: string, e: string)
    ensures a + (b + c + d + e) == a + b + c + d + e
  {
  }
}
