/**
  The text stages `scrapeWikipedia` runs over the fetched page (index.ts lines 55-88).
  Each `String.prototype.replace` with a global regular expression is modelled as the
  scan the regular-expression engine performs: at each position try the pattern; on a
  match emit the replacement and continue after it, otherwise keep one character.
 */
module Cleanup {
  import opened Text
  import opened JsValue

  /* ---------------------------------------------------------------------------
     Searching
     --------------------------------------------------------------------------- */

  /** First index at or after `from` holding `c` (`IndexOfFirst` says it is the first). */
  function IndexOf(s: string, c: char, from: nat): (r: Option<nat>)
    decreases |s| - from
    ensures r.Some? ==> from <= r.value < |s| && s[r.value] == c
  {
    if from >= |s| then None else if s[from] == c then Some(from) else IndexOf(s, c, from + 1)
  }

  /** Nothing before the index found holds `c`, and no index holds it when none is found. */
  lemma {:induction false} IndexOfFirst(s: string, c: char, from: nat)
    decreases |s| - from
    ensures IndexOf(s, c, from).Some? ==> forall k :: from <= k < IndexOf(s, c, from).value ==> s[k] != c
    ensures IndexOf(s, c, from).None? ==> forall k :: from <= k < |s| ==> s[k] != c
  {
    if from < |s| && s[from] != c {
      IndexOfFirst(s, c, from + 1);
    }
  }

  /** `p` occurs at index `k` of `s`, ASCII case ignored. */
  predicate OccursAtIgnoreCase(s: string, p: string, k: int) {
    0 <= k && k + |p| <= |s| && EqualsIgnoreCase(s[k..k + |p|], p)
  }

  /** First index at or after `from` where `p` occurs, ASCII case ignored
      (`FindIgnoreCaseAt` tells which one it is). */
  function FindIgnoreCase(s: string, p: string, from: nat): (r: Option<nat>)
    decreases |s| - from
    ensures r.Some? ==> from <= r.value && r.value + |p| <= |s|
  {
    if from + |p| > |s| then None
    else if OccursAtIgnoreCase(s, p, from) then Some(from)
    else FindIgnoreCase(s, p, from + 1)
  }

  /** Number of consecutive characters from index `from` satisfying `IsDigit`. */
  function DigitRun(s: string, from: nat): (n: nat)
    requires from <= |s|
    decreases |s| - from
    ensures from + n <= |s|
    ensures forall k :: from <= k < from + n ==> IsDigit(s[k])
    ensures from + n < |s| ==> !IsDigit(s[from + n])
  {
    if from < |s| && IsDigit(s[from]) then 1 + DigitRun(s, from + 1) else 0
  }

  /** Number of consecutive ASCII letters from index `from`. */
  function LetterRun(s: string, from: nat): (n: nat)
    requires from <= |s|
    decreases |s| - from
    ensures from + n <= |s|
    ensures forall k :: from <= k < from + n ==> IsAsciiLetter(s[k])
    ensures from + n < |s| ==> !IsAsciiLetter(s[from + n])
  {
    if from < |s| && IsAsciiLetter(s[from]) then 1 + LetterRun(s, from + 1) else 0
  }

  /* ---------------------------------------------------------------------------
     Block removal: /<name[^>]*>[\s\S]*?<\/name>/gi -> ""   (lines 55-59)
     --------------------------------------------------------------------------- */

  /** Length of the match of `/<name[^>]*>[\s\S]*?<\/name>/i` at the start of `s`:
      `<name` in any ASCII case, the rest of the opening tag up to its first `>`, and
      then everything up to the earliest closing `</name>` in any case. */
  function BlockMatch(s: string, name: string): (r: Option<nat>)
    ensures r.Some? ==> 0 < r.value <= |s|
  {
    var open := "<" + name;
    if !OccursAtIgnoreCase(s, open, 0) then None
    else match IndexOf(s, '>', |open|)
      case None => None
      case Some(g) =>
        match FindIgnoreCase(s, "</" + name + ">", g + 1)
        case None => None
        case Some(e) => Some(e + |name| + 3)
  }

  /** `s.replace(/<name[^>]*>[\s\S]*?<\/name>/gi, "")`. */
  function RemoveBlocks(s: string, name: string): (r: string)
    decreases |s|
    ensures |r| <= |s|
  {
    if s == [] then []
    else match BlockMatch(s, name)
      case Some(n) => RemoveBlocks(s[n..], name)
      case None => [s[0]] + RemoveBlocks(s[1..], name)
  }

  /** The four block removals of lines 55-59, in the source's order. */
  function RemoveNonContentBlocks(html: string): (r: string)
    ensures |r| <= |html|
  {
    RemoveBlocks(RemoveBlocks(RemoveBlocks(RemoveBlocks(html, "script"), "style"), "nav"), "footer")
  }

  /** Text without a `<` has no block to remove. */
  lemma RemoveBlocksKeepsPlainText(s: string, name: string)
    requires '<' !in s
    ensures RemoveBlocks(s, name) == s
  {
    RemoveBlocksKeepsPlainPrefix(s, [], name);
    assert s + [] == s;
  }

  /** A prefix without a `<` is copied, and the scan goes on after it. */
  lemma {:induction false} RemoveBlocksKeepsPlainPrefix(x: string, t: string, name: string)
    requires '<' !in x
    ensures RemoveBlocks(x + t, name) == x + RemoveBlocks(t, name)
    decreases |x|
  {
    if x == [] {
      assert x + t == t;
    } else {
      var s := x + t;
      assert s[0] == x[0] && s[1..] == x[1..] + t;
      RemoveBlocksKeepsChar(s, name);
      RemoveBlocksKeepsPlainPrefix(x[1..], t, name);
      ConsAppend(x, RemoveBlocks(t, name));
    }
  }

  /** At a character other than `<` the scan copies it. */
  lemma RemoveBlocksKeepsChar(s: string, name: string)
    requires s != [] && s[0] != '<'
    ensures RemoveBlocks(s, name) == [s[0]] + RemoveBlocks(s[1..], name)
  {
    NoBlockWithoutAngle(s, name);
  }

  /** At a match the scan drops it. */
  lemma RemoveBlocksSkipsMatch(s: string, name: string, n: nat)
    requires s != [] && BlockMatch(s, name) == Some(n)
    ensures RemoveBlocks(s, name) == RemoveBlocks(s[n..], name)
  {
  }

  /** The element `<name attrs>body</name>`. */
  function Block(name: string, attrs: string, body: string): string {
    ("<" + name) + attrs + ">" + body + ("</" + name + ">")
  }

  /** The closing tag `</name>`, in any ASCII case, first occurs in `body` followed by
      `</name>` at that final closing tag: where the lazy `[\s\S]*?` stops. A body may
      hold any other markup, `<` included. */
  predicate NoEarlierClose(body: string, name: string) {
    var close := "</" + name + ">";
    forall k :: 0 <= k < |body| ==> !OccursAtIgnoreCase(body + close, close, k)
  }

  /** A body without `<` cannot hold a closing tag. */
  lemma PlainBodyHasNoEarlierClose(body: string, name: string)
    requires '<' !in body
    ensures NoEarlierClose(body, name)
  {
    var close := "</" + name + ">";
    forall k | 0 <= k < |body| ensures !OccursAtIgnoreCase(body + close, close, k) {
      assert (body + close)[k] == body[k];
      NoMatchAtOtherChar(body + close, close, k);
    }
  }

  /** A complete block after text in which no block of its kind opens is removed, together
      with its body, and the scan goes on after it. The text before it may hold any other
      markup. */
  lemma RemoveBlocksDropsBlock(x: string, name: string, attrs: string, body: string, y: string)
    requires NoOpening(x, name) && '<' !in name && '>' !in attrs && NoEarlierClose(body, name)
    ensures RemoveBlocks(x + Block(name, attrs, body) + y, name) == x + RemoveBlocks(y, name)
  {
    var b := Block(name, attrs, body);
    BlockMatchOfBlock(name, attrs, body, y);
    RemoveBlocksSkipsMatch(b + y, name, |b|);
    assert (b + y)[|b|..] == y;
    assert (b + y)[0] == '<';
    NoOpeningAcross(x, b + y, name);
    RemoveBlocksKeepsUnopenedPrefix(x, b + y, name);
    assert x + b + y == x + (b + y);
  }

  /** A prefix at none of whose positions a block opens is copied, and the scan goes on
      after it. */
  lemma {:induction false} RemoveBlocksKeepsUnopenedPrefix(x: string, t: string, name: string)
    requires forall k :: 0 <= k < |x| ==> !OccursAtIgnoreCase(x + t, "<" + name, k)
    ensures RemoveBlocks(x + t, name) == x + RemoveBlocks(t, name)
    decreases |x|
  {
    if x == [] {
      assert x + t == t;
    } else {
      var open := "<" + name;
      var s := x + t;
      assert s[1..] == x[1..] + t;
      assert !OccursAtIgnoreCase(s, open, 0);
      forall k | 0 <= k < |x| - 1 ensures !OccursAtIgnoreCase(x[1..] + t, open, k) {
        if OccursAtIgnoreCase(x[1..] + t, open, k) {
          assert s[1..][k..k + |open|] == s[k + 1..k + 1 + |open|];
          assert OccursAtIgnoreCase(s, open, k + 1);
        }
      }
      RemoveBlocksKeepsUnopenedPrefix(x[1..], t, name);
      ConsAppend(x, RemoveBlocks(t, name));
    }
  }

  /** When `t` starts with `<` and the name holds none, an opening that starts in `x` lies
      wholly inside `x`. */
  lemma NoOpeningAcross(x: string, t: string, name: string)
    requires NoOpening(x, name) && '<' !in name && t != [] && t[0] == '<'
    ensures forall k :: 0 <= k < |x| ==> !OccursAtIgnoreCase(x + t, "<" + name, k)
  {
    var open := "<" + name;
    var s := x + t;
    forall k | 0 <= k < |x| ensures !OccursAtIgnoreCase(s, open, k) {
      if k + |open| <= |x| {
        assert s[k..k + |open|] == x[k..k + |open|];
        assert !OccursAtIgnoreCase(x, open, k);
      } else if k + |open| <= |s| {
        var m := |x| - k;
        EqualsIgnoreCasePointwise(s[k..k + |open|], open);
        assert s[k..k + |open|][m] == t[0];
        assert open[m] == name[m - 1];
        assert LowerAscii(s[k..k + |open|][m]) != LowerAscii(open[m]);
      }
    }
  }

  /** No block opens in `x` or in `y` when none opens in `x + y`. */
  lemma NoOpeningParts(x: string, y: string, name: string)
    requires NoOpening(x + y, name)
    ensures NoOpening(x, name) && NoOpening(y, name)
  {
    var open := "<" + name;
    var s := x + y;
    forall k | 0 <= k < |x| ensures !OccursAtIgnoreCase(x, open, k) {
      if OccursAtIgnoreCase(x, open, k) {
        assert s[k..k + |open|] == x[k..k + |open|];
        assert OccursAtIgnoreCase(s, open, k);
      }
    }
    forall k | 0 <= k < |y| ensures !OccursAtIgnoreCase(y, open, k) {
      if OccursAtIgnoreCase(y, open, k) {
        assert s[|x| + k..|x| + k + |open|] == y[k..k + |open|];
        assert OccursAtIgnoreCase(s, open, |x| + k);
      }
    }
  }

  lemma ConsAppend(x: string, t: string)
    requires x != []
    ensures [x[0]] + (x[1..] + t) == x + t
  {
    assert x == [x[0]] + x[1..];
  }

  lemma NoBlockWithoutAngle(s: string, name: string)
    requires s != [] && s[0] != '<'
    ensures BlockMatch(s, name).None?
  {
    NoMatchAtOtherChar(s, "<" + name, 0);
  }

  lemma BlockMatchOfBlock(name: string, attrs: string, body: string, y: string)
    requires '>' !in attrs && NoEarlierClose(body, name)
    ensures BlockMatch(Block(name, attrs, body) + y, name) == Some(|Block(name, attrs, body)|)
  {
    BlockSlices(name, attrs, body, y);
    BlockMatchFromSlices(Block(name, attrs, body) + y, name, attrs, body);
  }

  /** The matcher on a text laid out as `<name`, `attrs`, `>`, `body`, `</name>`. */
  lemma BlockMatchFromSlices(s: string, name: string, attrs: string, body: string)
    requires '>' !in attrs && NoEarlierClose(body, name)
    requires var open := "<" + name;
      var g := |open| + |attrs|;
      var e := g + 1 + |body|;
      e + |name| + 3 <= |s| &&
      s[..|open|] == open && s[|open|..g] == attrs && s[g] == '>' &&
      s[g + 1..e] == body && s[e..e + |name| + 3] == "</" + name + ">"
    ensures BlockMatch(s, name) == Some(2 * |name| + |attrs| + |body| + 5)
  {
    var open := "<" + name;
    var close := "</" + name + ">";
    var g := |open| + |attrs|;
    var e := g + 1 + |body|;
    OpensWith(s, open);
    FirstAngleAfter(s, |open|, attrs);
    assert |close| == |name| + 3;
    assert s[g + 1..g + 1 + |body|] == body && s[e..e + |close|] == close;
    assert NoEarlierClose(body, name);
    FirstCloseAfter(s, g + 1, body, close);
    BlockMatchFromParts(s, name, g, e);
  }

  /** The matcher, given where its three searches stop. */
  lemma BlockMatchFromParts(s: string, name: string, g: nat, e: nat)
    requires OccursAtIgnoreCase(s, "<" + name, 0)
    requires IndexOf(s, '>', |"<" + name|) == Some(g)
    requires FindIgnoreCase(s, "</" + name + ">", g + 1) == Some(e)
    ensures BlockMatch(s, name) == Some(e + |name| + 3)
  {
  }

  /** Where the pieces of a block sit. */
  lemma BlockSlices(name: string, attrs: string, body: string, y: string)
    ensures var s, open := Block(name, attrs, body) + y, "<" + name;
      var g := |open| + |attrs|;
      var e := g + 1 + |body|;
      |Block(name, attrs, body)| == e + |name| + 3 &&
      s[..|open|] == open && s[|open|..g] == attrs && g < |s| && s[g] == '>' &&
      s[g + 1..e] == body && e + |name| + 3 <= |s| && s[e..e + |name| + 3] == "</" + name + ">"
  {
  }

  lemma OpensWith(s: string, p: string)
    requires |p| <= |s| && s[..|p|] == p
    ensures OccursAtIgnoreCase(s, p, 0)
  {
    EqualsIgnoreCaseRefl(p);
    assert s[0..|p|] == p;
  }

  /** After a run without `>`, the next `>` is the first. */
  lemma FirstAngleAfter(s: string, from: nat, attrs: string)
    requires from + |attrs| < |s| && s[from..from + |attrs|] == attrs && s[from + |attrs|] == '>'
    requires '>' !in attrs
    ensures IndexOf(s, '>', from) == Some(from + |attrs|)
  {
    forall k | from <= k < from + |attrs| ensures s[k] != '>' {
      assert s[k] == attrs[k - from];
    }
    IndexOfAt(s, '>', from, from + |attrs|);
  }

  /** After a body in which the closing tag does not start, the closing tag there is the
      first. */
  lemma FirstCloseAfter(s: string, from: nat, body: string, close: string)
    requires from + |body| + |close| <= |s|
    requires s[from..from + |body|] == body && s[from + |body|..from + |body| + |close|] == close
    requires forall k :: 0 <= k < |body| ==> !OccursAtIgnoreCase(body + close, close, k)
    ensures FindIgnoreCase(s, close, from) == Some(from + |body|)
  {
    var e := from + |body|;
    var bc := body + close;
    EqualsIgnoreCaseRefl(close);
    assert s[e..e + |close|] == close;
    assert s[from..e + |close|] == bc;
    forall k | from <= k < e ensures !OccursAtIgnoreCase(s, close, k) {
      assert !OccursAtIgnoreCase(bc, close, k - from);
      SliceWithin(s, from, bc, k - from, k - from + |close|);
    }
    FindIgnoreCaseAt(s, close, from, e);
  }

  /** A slice of a text that sits at `from` in `s` is the matching slice of `s`. */
  lemma SliceWithin(s: string, from: nat, t: string, i: nat, j: nat)
    requires from + |t| <= |s| && s[from..from + |t|] == t && i <= j <= |t|
    ensures s[from + i..from + j] == t[i..j]
  {
    forall m | i <= m < j ensures s[from + m] == t[m] {
      assert s[from + m] == s[from..from + |t|][m];
    }
  }

  lemma {:induction false} IndexOfAt(s: string, c: char, from: nat, g: nat)
    requires from <= g < |s| && s[g] == c
    requires forall k :: from <= k < g ==> s[k] != c
    ensures IndexOf(s, c, from) == Some(g)
    decreases g - from
  {
    if from < g {
      IndexOfAt(s, c, from + 1, g);
    }
  }

  /** The search finds the earliest occurrence. */
  lemma {:induction false} FindIgnoreCaseAt(s: string, p: string, from: nat, e: nat)
    requires from <= e && OccursAtIgnoreCase(s, p, e)
    requires forall k :: from <= k < e ==> !OccursAtIgnoreCase(s, p, k)
    ensures FindIgnoreCase(s, p, from) == Some(e)
    decreases e - from
  {
    if from < e {
      FindIgnoreCaseAt(s, p, from + 1, e);
    }
  }

  /** The element names whose blocks lines 55-59 remove, in the source's order. */
  const BlockNames: seq<string> := ["script", "style", "nav", "footer"]

  /** `<name`, in any ASCII case, occurs nowhere in `s`. */
  predicate NoOpening(s: string, name: string) {
    forall k :: 0 <= k < |s| ==> !OccursAtIgnoreCase(s, "<" + name, k)
  }

  /** Text in which no block of `name` opens is left unchanged by its removal. */
  lemma {:induction false} RemoveBlocksWithoutOpening(s: string, name: string)
    requires NoOpening(s, name)
    decreases |s|
    ensures RemoveBlocks(s, name) == s
  {
    if s != [] {
      var open := "<" + name;
      assert !OccursAtIgnoreCase(s, open, 0);
      forall k | 0 <= k < |s| - 1 ensures !OccursAtIgnoreCase(s[1..], open, k) {
        if OccursAtIgnoreCase(s[1..], open, k) {
          assert s[1..][k..k + |open|] == s[k + 1..k + 1 + |open|];
          assert OccursAtIgnoreCase(s, open, k + 1);
        }
      }
      RemoveBlocksWithoutOpening(s[1..], name);
    }
  }

  /** Lines 55-59 as a whole: a script, style, nav or footer block is removed together
      with its body, whatever markup the body holds, and the text around it is kept. The
      surrounding text may hold any other markup, provided no block of the four kinds opens
      in it (nor across the gap the removal closes), and no block of a kind removed before
      this one opens anywhere in the text. */
  lemma RemoveNonContentBlocksDropsBlock(x: string, i: nat, attrs: string, body: string, y: string)
    requires i < |BlockNames| && '>' !in attrs
    requires NoEarlierClose(body, BlockNames[i])
    requires forall j :: 0 <= j < |BlockNames| ==> NoOpening(x + y, BlockNames[j])
    requires forall j :: 0 <= j < i ==> NoOpening(x + Block(BlockNames[i], attrs, body) + y, BlockNames[j])
    ensures RemoveNonContentBlocks(x + Block(BlockNames[i], attrs, body) + y) == x + y
  {
    var s := x + Block(BlockNames[i], attrs, body) + y;
    var p := x + y;
    RemoveOneBlock(x, i, attrs, body, y);
    if i == 0 {
      KeepsUnopened(p, 1);
      KeepsUnopened(p, 2);
      KeepsUnopened(p, 3);
    } else if i == 1 {
      KeepsUnopened(s, 0);
      KeepsUnopened(p, 2);
      KeepsUnopened(p, 3);
    } else if i == 2 {
      KeepsUnopened(s, 0);
      KeepsUnopened(s, 1);
      KeepsUnopened(p, 3);
    } else {
      KeepsUnopened(s, 0);
      KeepsUnopened(s, 1);
      KeepsUnopened(s, 2);
    }
  }

  /** The `i`-th block removal on a complete block leaves the text around it. */
  lemma RemoveOneBlock(x: string, i: nat, attrs: string, body: string, y: string)
    requires i < |BlockNames| && '>' !in attrs && NoEarlierClose(body, BlockNames[i])
    requires NoOpening(x + y, BlockNames[i])
    ensures RemoveBlocks(x + Block(BlockNames[i], attrs, body) + y, BlockNames[i]) == x + y
  {
    var name := BlockNames[i];
    assert '<' !in name;
    NoOpeningParts(x, y, name);
    RemoveBlocksDropsBlock(x, name, attrs, body, y);
    RemoveBlocksWithoutOpening(y, name);
  }

  /** The `j`-th block removal leaves text in which that block never opens. */
  lemma KeepsUnopened(s: string, j: nat)
    requires j < |BlockNames| && NoOpening(s, BlockNames[j])
    ensures RemoveBlocks(s, BlockNames[j]) == s
  {
    RemoveBlocksWithoutOpening(s, BlockNames[j]);
  }

  /** A pattern starting with `<` does not match at a character other than `<`. */
  lemma NoMatchAtOtherChar(s: string, p: string, k: nat)
    requires k < |s| && p != [] && p[0] == '<' && s[k] != '<'
    ensures !OccursAtIgnoreCase(s, p, k)
  {
    if k + |p| <= |s| {
      assert s[k..k + |p|][0] == s[k];
      assert LowerAscii(s[k]) != LowerAscii(p[0]);
    }
  }

  /* ---------------------------------------------------------------------------
     Main content: the capture of /<div[^>]*class="mw-parser-output"[^>]*>([\s\S]*?)
     <\/div>\s*<div[^>]*id="catlinks"/i    (lines 71-74)
     --------------------------------------------------------------------------- */

  /** Where the main-content matcher found its capture group in the document. */
  datatype Span = Span(start: nat, end: nat)

  predicate SpanWithin(sp: Option<Span>, doc: string) {
    sp.Some? ==> sp.value.start <= sp.value.end <= |doc|
  }

  /** `r` is a contiguous piece of `doc`. */
  predicate IsSegmentOf(r: string, doc: string) {
    exists i :: 0 <= i <= |doc| && OccursAt(doc, r, i)
  }

  /** Lines 72-74: the document is replaced by the capture when there is one. */
  function SelectMainContent(doc: string, main: Option<Span>): (r: string)
    requires SpanWithin(main, doc)
    ensures main.None? ==> r == doc
    ensures IsSegmentOf(r, doc)
  {
    if main.Some? then
      var r := doc[main.value.start..main.value.end];
      assert OccursAt(doc, r, main.value.start);
      r
    else
      assert OccursAt(doc, doc, 0);
      doc
  }

  /* ---------------------------------------------------------------------------
     Tags: /<[^>]+>/g -> " "   (line 78)
     --------------------------------------------------------------------------- */

  /** A substring of the form `<`, one or more characters other than `>`, `>`. */
  predicate IsTag(t: string) {
    |t| >= 3 && t[0] == '<' && t[|t| - 1] == '>' && forall k :: 0 < k < |t| - 1 ==> t[k] != '>'
  }

  /** No substring of `r` is a tag. */
  predicate NoTag(r: string) {
    forall i, j :: 0 <= i <= j <= |r| ==> !IsTag(r[i..j])
  }

  /** Pointwise form of `NoTag`: a `<` with a later `>` is directly followed by a `>`. */
  predicate TagFree(r: string) {
    forall i, j :: 0 <= i < j < |r| && r[i] == '<' && r[j] == '>' ==> r[i + 1] == '>'
  }

  lemma TagFreeIsNoTag(r: string)
    ensures TagFree(r) <==> NoTag(r)
  {
    if TagFree(r) {
      forall i, j | 0 <= i <= j <= |r| ensures !IsTag(r[i..j]) {
        var t := r[i..j];
        if |t| >= 3 && t[0] == '<' && t[|t| - 1] == '>' {
          assert r[i] == '<' && r[j - 1] == '>';
          assert t[1] == r[i + 1] == '>';
        }
      }
    }
    if NoTag(r) {
      forall i, j | 0 <= i < j < |r| && r[i] == '<' && r[j] == '>' ensures r[i + 1] == '>' {
        IndexOfFirst(r, '>', i + 1);
        var g := IndexOf(r, '>', i + 1).value;
        if g != i + 1 {
          TagUpToFirstAngle(r, i, g);
        }
      }
    }
  }

  /** A `<` followed, after at least one other character, by its first `>` starts a tag. */
  lemma TagUpToFirstAngle(r: string, i: nat, g: nat)
    requires i + 1 < g < |r| && r[i] == '<' && r[g] == '>'
    requires forall k :: i + 1 <= k < g ==> r[k] != '>'
    ensures IsTag(r[i..g + 1])
  {
    var t := r[i..g + 1];
    forall k | 0 < k < |t| - 1 ensures t[k] != '>' {
      assert t[k] == r[i + k];
    }
  }

  /** Length of the match of `/<[^>]+>/` at the start of `s`. */
  function TagMatch(s: string): (r: Option<nat>)
    ensures r.Some? ==> 3 <= r.value <= |s| && IsTag(s[..r.value])
  {
    if |s| >= 2 && s[0] == '<' && s[1] != '>' then
      match IndexOf(s, '>', 1)
      case Some(g) => IndexOfFirst(s, '>', 1); Some(g + 1)
      case None => None
    else None
  }

  /** `s.replace(/<[^>]+>/g, " ")`. */
  function StripTags(s: string): (r: string)
    decreases |s|
    ensures forall k :: 0 <= k < |r| ==> r[k] == ' ' || r[k] in s
  {
    if s == [] then []
    else match TagMatch(s)
      case Some(n) => " " + StripTags(s[n..])
      case None => [s[0]] + StripTags(s[1..])
  }

  lemma TagFreeCons(c: char, r: string)
    requires TagFree(r)
    requires c == '<' && '>' in r ==> r[0] == '>'
    ensures TagFree([c] + r)
  {
    var s := [c] + r;
    forall i, j | 0 <= i < j < |s| && s[i] == '<' && s[j] == '>' ensures s[i + 1] == '>' {
      if i == 0 {
        assert r[j - 1] == '>';
      } else {
        assert r[i - 1] == '<' && r[j - 1] == '>';
      }
    }
  }

  lemma TagFreeSuffix(s: string, n: nat)
    requires TagFree(s) && n <= |s|
    ensures TagFree(s[n..])
  {
    var t := s[n..];
    forall i, j | 0 <= i < j < |t| && t[i] == '<' && t[j] == '>' ensures t[i + 1] == '>' {
      assert s[n + i] == '<' && s[n + j] == '>';
    }
  }

  lemma TagFreeSlice(s: string, i: nat, j: nat)
    requires TagFree(s) && i <= j <= |s|
    ensures TagFree(s[i..j])
  {
    var t := s[i..j];
    forall a, b | 0 <= a < b < |t| && t[a] == '<' && t[b] == '>' ensures t[a + 1] == '>' {
      assert s[i + a] == '<' && s[i + b] == '>';
    }
  }

  lemma TagFreeAppend(a: string, b: string)
    requires TagFree(a) && '<' !in b && '>' !in b
    ensures TagFree(a + b)
  {
    var s := a + b;
    forall k | |a| <= k < |s| ensures s[k] != '>' {
      assert s[k] == b[k - |a|];
    }
    forall i, j | 0 <= i < j < |s| && s[i] == '<' && s[j] == '>' ensures s[i + 1] == '>' {
      assert s[i] == a[i] && s[j] == a[j];
    }
  }

  /** After the tag step no tag is left in the text. */
  lemma {:induction false} StripTagsLeavesNoTag(s: string)
    ensures NoTag(StripTags(s))
  {
    StripTagsTagFree(s);
    TagFreeIsNoTag(StripTags(s));
  }

  lemma {:induction false} StripTagsTagFree(s: string)
    decreases |s|
    ensures TagFree(StripTags(s))
  {
    if s != [] {
      match TagMatch(s)
      case Some(n) =>
        StripTagsTagFree(s[n..]);
        TagFreeCons(' ', StripTags(s[n..]));
      case None =>
        var r := StripTags(s[1..]);
        StripTagsTagFree(s[1..]);
        if s[0] == '<' && '>' in r {
          var k :| 0 <= k < |r| && r[k] == '>';
          assert r[k] in s[1..];
          assert s[1] == '>' by {
            IndexOfFirst(s, '>', 1);
            var g := IndexOf(s, '>', 1);
            assert g.Some? by { var m :| 0 <= m < |s[1..]| && s[1..][m] == '>'; assert s[1 + m] == '>'; }
          }
          assert TagMatch(s[1..]).None?;
        }
        TagFreeCons(s[0], r);
    }
  }

  /* ---------------------------------------------------------------------------
     Citations: /\[\d+\]/g -> ""   (line 79)
     --------------------------------------------------------------------------- */

  /** Length of the match of `/\[\d+\]/` at the start of `s`. */
  function CitationMatch(s: string): (r: Option<nat>)
    ensures r.Some? ==> 3 <= r.value <= |s|
  {
    if s != [] && s[0] == '[' then
      var n := DigitRun(s, 1);
      if n > 0 && 1 + n < |s| && s[1 + n] == ']' then Some(n + 2) else None
    else None
  }

  /** `s.replace(/\[\d+\]/g, "")`. */
  function RemoveCitations(s: string): (r: string)
    decreases |s|
    ensures |r| <= |s|
    ensures forall k :: 0 <= k < |r| ==> r[k] in s
  {
    if s == [] then []
    else match CitationMatch(s)
      case Some(n) => RemoveCitations(s[n..])
      case None => [s[0]] + RemoveCitations(s[1..])
  }

  /** `[digits]` with at least one digit. */
  predicate IsCitation(m: string) {
    |m| >= 3 && m[0] == '[' && m[|m| - 1] == ']' && forall k :: 0 < k < |m| - 1 ==> IsDigit(m[k])
  }

  /** A citation marker is removed and the scan goes on after it, when no marker starts in
      the text before it. That text may hold other brackets, such as `[edit]` or
      `[citation needed]`. */
  lemma RemoveCitationsDropsMarker(x: string, m: string, y: string)
    requires forall k :: 0 <= k < |x| ==> CitationMatch(x[k..]) == None
    requires IsCitation(m)
    ensures RemoveCitations(x + m + y) == x + RemoveCitations(y)
  {
    RemoveCitationsSkipsMarker(m, y);
    forall k | 0 <= k < |x| ensures CitationMatch((x + (m + y))[k..]) == None {
      assert (x + (m + y))[k..] == x[k..] + (m + y);
      CitationMatchBeforeBracket(x[k..], m + y);
    }
    RemoveCitationsKeepsUnmatchedPrefix(x, m + y);
    assert x + m + y == x + (m + y);
  }

  /** A prefix at none of whose positions a marker matches is copied, and the scan goes on
      after it. */
  lemma {:induction false} RemoveCitationsKeepsUnmatchedPrefix(x: string, t: string)
    requires forall k :: 0 <= k < |x| ==> CitationMatch((x + t)[k..]) == None
    ensures RemoveCitations(x + t) == x + RemoveCitations(t)
    decreases |x|
  {
    if x == [] {
      assert x + t == t;
    } else {
      var s := x + t;
      assert s[0..] == s;
      assert s[1..] == x[1..] + t;
      assert RemoveCitations(s) == [s[0]] + RemoveCitations(s[1..]);
      forall k | 0 <= k < |x| - 1 ensures CitationMatch((x[1..] + t)[k..]) == None {
        assert (x[1..] + t)[k..] == s[k + 1..];
      }
      RemoveCitationsKeepsUnmatchedPrefix(x[1..], t);
      ConsAppend(x, RemoveCitations(t));
    }
  }

  /** A `[` right after a non-empty text does not change what matches at its start: the
      digits stop at the `[`, which is not the closing `]`. */
  lemma CitationMatchBeforeBracket(v: string, w: string)
    requires v != [] && w != [] && w[0] == '['
    ensures CitationMatch(v + w) == CitationMatch(v)
  {
    var u := v + w;
    assert u[0] == v[0];
    if v[0] == '[' {
      var n := DigitRun(v, 1);
      forall k | 1 <= k < 1 + n ensures IsDigit(u[k]) {
        assert u[k] == v[k];
      }
      if 1 + n < |v| {
        assert u[1 + n] == v[1 + n];
      } else {
        assert u[1 + n] == w[0];
      }
      DigitRunIs(u, 1, n);
    }
  }

  lemma CitationMatchOfMarker(m: string, y: string)
    requires IsCitation(m)
    ensures CitationMatch(m + y) == Some(|m|)
  {
    var s := m + y;
    forall k | 1 <= k < |m| - 1 ensures IsDigit(s[k]) {
      assert s[k] == m[k];
    }
    assert s[|m| - 1] == ']';
    DigitRunIs(s, 1, |m| - 2);
  }

  lemma DigitRunIs(s: string, from: nat, n: nat)
    requires from + n < |s|
    requires forall k :: from <= k < from + n ==> IsDigit(s[k])
    requires !IsDigit(s[from + n])
    ensures DigitRun(s, from) == n
    decreases n
  {
    if n > 0 { DigitRunIs(s, from + 1, n - 1); }
  }

  /** The removal is a single left-to-right pass: removing an inner marker can form a new
      marker, which stays (`[[1]2]` becomes `[2]`). */
  lemma CitationRemovalIsSinglePass(m: string, d: string)
    requires IsCitation(m) && d != [] && forall k :: 0 <= k < |d| ==> IsDigit(d[k])
    ensures RemoveCitations("[" + m + d + "]") == "[" + d + "]"
    ensures IsCitation("[" + d + "]")
  {
    var y := d + "]";
    RemoveCitationsKeepsBracketBeforeMarker(m, y);
    RemoveCitationsSkipsMarker(m, y);
    DigitsBracketed(d);
    RemoveCitationsKeepsPlainText(y);
    BracketedRegroup(m, d);
  }

  lemma BracketedRegroup(m: string, d: string)
    ensures "[" + m + d + "]" == "[" + (m + (d + "]"))
    ensures "[" + d + "]" == "[" + (d + "]")
  {
  }

  /** A `[` directly before a marker is no marker itself, so it is copied. */
  lemma RemoveCitationsKeepsBracketBeforeMarker(m: string, y: string)
    requires IsCitation(m)
    ensures RemoveCitations("[" + (m + y)) == "[" + RemoveCitations(m + y)
  {
    var s := "[" + (m + y);
    assert s[1] == m[0];
    assert s[1..] == m + y;
  }

  /** A marker at the start is dropped and the scan goes on after it. */
  lemma RemoveCitationsSkipsMarker(m: string, y: string)
    requires IsCitation(m)
    ensures RemoveCitations(m + y) == RemoveCitations(y)
  {
    CitationMatchOfMarker(m, y);
    assert (m + y)[|m|..] == y;
  }

  /** Text without a `[` has no marker to remove. */
  lemma RemoveCitationsKeepsPlainText(s: string)
    requires '[' !in s
    ensures RemoveCitations(s) == s
  {
    assert s + [] == s;
    forall k | 0 <= k < |s| ensures CitationMatch((s + [])[k..]) == None {
      assert (s + [])[k..][0] == s[k];
    }
    RemoveCitationsKeepsUnmatchedPrefix(s, []);
  }

  /** Digits in brackets form a marker, and digits and `]` hold no `[`. */
  lemma DigitsBracketed(d: string)
    requires d != [] && forall k :: 0 <= k < |d| ==> IsDigit(d[k])
    ensures IsCitation("[" + d + "]")
    ensures '[' !in d + "]"
  {
    var c := "[" + d + "]";
    forall k | 0 < k < |c| - 1 ensures IsDigit(c[k]) {
      assert c[k] == d[k - 1];
    }
    var y := d + "]";
    forall k | 0 <= k < |y| ensures y[k] != '[' {
      if k < |d| {
        assert y[k] == d[k];
      }
    }
  }

  lemma {:induction false} RemoveCitationsKeepsTagFree(s: string)
    requires TagFree(s)
    decreases |s|
    ensures TagFree(RemoveCitations(s))
  {
    if s != [] {
      match CitationMatch(s)
      case Some(n) =>
        TagFreeSuffix(s, n);
        RemoveCitationsKeepsTagFree(s[n..]);
      case None =>
        var r := RemoveCitations(s[1..]);
        TagFreeSuffix(s, 1);
        RemoveCitationsKeepsTagFree(s[1..]);
        if s[0] == '<' && '>' in r {
          var k :| 0 <= k < |r| && r[k] == '>';
          var m :| 0 <= m < |s[1..]| && s[1..][m] == '>';
          assert s[1 + m] == '>';
          assert s[1] == '>';
          assert CitationMatch(s[1..]).None?;
        }
        TagFreeCons(s[0], r);
    }
  }

  /* ---------------------------------------------------------------------------
     Entities: /&[a-z]+;/gi -> " "   (line 80)
     --------------------------------------------------------------------------- */

  /** `&`, one or more ASCII letters of either case, `;`. */
  predicate IsEntity(t: string) {
    |t| >= 3 && t[0] == '&' && t[|t| - 1] == ';' && forall k :: 0 < k < |t| - 1 ==> IsAsciiLetter(t[k])
  }

  /** No substring of `r` is an entity. */
  predicate NoEntity(r: string) {
    forall i, j :: 0 <= i <= j <= |r| ==> !IsEntity(r[i..j])
  }

  /** Length of the match of `/&[a-z]+;/i` at the start of `s`. */
  function EntityMatch(s: string): (r: Option<nat>)
    ensures r.Some? ==> 3 <= r.value <= |s| && IsEntity(s[..r.value])
  {
    if s != [] && s[0] == '&' then
      var n := LetterRun(s, 1);
      if n > 0 && 1 + n < |s| && s[1 + n] == ';' then Some(n + 2) else None
    else None
  }

  /** `s.replace(/&[a-z]+;/gi, " ")`. */
  function RemoveEntities(s: string): (r: string)
    decreases |s|
    ensures forall k :: 0 <= k < |r| ==> r[k] == ' ' || r[k] in s
  {
    if s == [] then []
    else match EntityMatch(s)
      case Some(n) => " " + RemoveEntities(s[n..])
      case None => [s[0]] + RemoveEntities(s[1..])
  }

  /** `t` starts with one or more letters and then `;`: what would follow an `&` in an entity. */
  predicate StartsEntityBody(t: string) {
    exists n :: 1 <= n < |t| && t[n] == ';' && forall k :: 0 <= k < n ==> IsAsciiLetter(t[k])
  }

  /** The entity step never creates the letters-and-`;` that could complete an entity
      after an `&`: when its output starts that way, its input did. */
  lemma {:induction false} EntityBodyComesFromInput(t: string)
    decreases |t|
    ensures StartsEntityBody(RemoveEntities(t)) ==> StartsEntityBody(t)
  {
    var r := RemoveEntities(t);
    if StartsEntityBody(r) {
      var n :| 1 <= n < |r| && r[n] == ';' && forall k :: 0 <= k < n ==> IsAsciiLetter(r[k]);
      RemoveEntitiesFirst(t);
      assert IsAsciiLetter(r[0]);
      var u := t[1..];
      RemoveEntitiesCopies(t);
      var ru := RemoveEntities(u);
      assert r[1..] == ru;
      if n == 1 {
        assert ru[0] == ';';
        RemoveEntitiesFirst(u);
        StartsEntityBodyAt(t, 1);
      } else {
        StartsEntityBodyTail(r, n);
        EntityBodyComesFromInput(u);
        StartsEntityBodyCons(t);
      }
    }
  }

  /** The first character of the entity step's output: a space for an entity, else the
      input's first character. */
  lemma RemoveEntitiesFirst(t: string)
    requires RemoveEntities(t) != []
    ensures t != [] && RemoveEntities(t)[0] == (if EntityMatch(t).Some? then ' ' else t[0])
  {
  }

  lemma RemoveEntitiesCopies(t: string)
    requires t != [] && EntityMatch(t).None?
    ensures RemoveEntities(t) == [t[0]] + RemoveEntities(t[1..])
  {
  }

  lemma StartsEntityBodyAt(t: string, n: nat)
    requires 1 <= n < |t| && t[n] == ';' && forall k :: 0 <= k < n ==> IsAsciiLetter(t[k])
    ensures StartsEntityBody(t)
  {
  }

  lemma StartsEntityBodyTail(r: string, n: nat)
    requires 2 <= n < |r| && r[n] == ';' && forall k :: 0 <= k < n ==> IsAsciiLetter(r[k])
    ensures StartsEntityBody(r[1..])
  {
    var u := r[1..];
    forall k | 0 <= k < n - 1 ensures IsAsciiLetter(u[k]) {
      assert u[k] == r[k + 1];
    }
    StartsEntityBodyAt(u, n - 1);
  }

  lemma StartsEntityBodyCons(t: string)
    requires t != [] && IsAsciiLetter(t[0]) && StartsEntityBody(t[1..])
    ensures StartsEntityBody(t)
  {
    var u := t[1..];
    var m :| 1 <= m < |u| && u[m] == ';' && forall k :: 0 <= k < m ==> IsAsciiLetter(u[k]);
    forall k | 0 <= k < m + 1 ensures IsAsciiLetter(t[k]) {
      if k > 0 {
        assert t[k] == u[k - 1];
      }
    }
    StartsEntityBodyAt(t, m + 1);
  }

  /** An `&` where the entity pattern fails is not followed by letters and a `;`. */
  lemma NoEntityBodyWhenNoMatch(s: string)
    requires s != [] && s[0] == '&' && EntityMatch(s).None?
    ensures !StartsEntityBody(s[1..])
  {
    var u := s[1..];
    var l := LetterRun(s, 1);
    forall n | 1 <= n < |u| && u[n] == ';' ensures exists k :: 0 <= k < n && !IsAsciiLetter(u[k]) {
      assert s[1 + n] == ';';
      assert l < n;
      assert u[l] == s[1 + l];
      assert 0 <= l < n && !IsAsciiLetter(u[l]);
    }
  }

  lemma LetterRunIs(s: string, from: nat, n: nat)
    requires from + n < |s|
    requires forall k :: from <= k < from + n ==> IsAsciiLetter(s[k])
    requires !IsAsciiLetter(s[from + n])
    ensures LetterRun(s, from) == n
    decreases n
  {
    if n > 0 { LetterRunIs(s, from + 1, n - 1); }
  }

  /** After the entity step no `&letters;` is left in the text. */
  lemma {:induction false} RemoveEntitiesLeavesNoEntity(s: string)
    decreases |s|
    ensures NoEntity(RemoveEntities(s))
  {
    if s != [] {
      match EntityMatch(s)
      case Some(n) =>
        RemoveEntitiesLeavesNoEntity(s[n..]);
        NoEntityCons(' ', RemoveEntities(s[n..]));
      case None =>
        var r := RemoveEntities(s[1..]);
        RemoveEntitiesLeavesNoEntity(s[1..]);
        if s[0] == '&' {
          NoEntityBodyWhenNoMatch(s);
          EntityBodyComesFromInput(s[1..]);
        }
        NoEntityCons(s[0], r);
    }
  }

  lemma NoEntityCons(c: char, r: string)
    requires NoEntity(r)
    requires c == '&' ==> !StartsEntityBody(r)
    ensures NoEntity([c] + r)
  {
    var s := [c] + r;
    forall i, j | 0 <= i <= j <= |s| ensures !IsEntity(s[i..j]) {
      if i == 0 {
        NoEntityAtFront(c, r, j);
      } else {
        assert s[i..j] == r[i - 1..j - 1];
      }
    }
  }

  /** A prefix of `[c] + r` is not an entity when `c` is not an `&` that `r` completes. */
  lemma NoEntityAtFront(c: char, r: string, j: nat)
    requires j <= |r| + 1
    requires c == '&' ==> !StartsEntityBody(r)
    ensures !IsEntity(([c] + r)[0..j])
  {
    var t := ([c] + r)[0..j];
    if j >= 3 && c == '&' && t[j - 1] == ';' {
      assert r[j - 2] == ';';
      assert !(forall k :: 0 <= k < j - 2 ==> IsAsciiLetter(r[k]));
      var k :| 0 <= k < j - 2 && !IsAsciiLetter(r[k]);
      assert t[k + 1] == r[k];
    }
  }

  /* ---------------------------------------------------------------------------
     Whitespace: /\s+/g -> " " and then trim()   (lines 81-82)
     --------------------------------------------------------------------------- */

  /** Every whitespace character is a plain space. */
  predicate OnlyPlainSpaces(r: string) {
    forall k :: 0 <= k < |r| && IsSpace(r[k]) ==> r[k] == ' '
  }

  /** No two whitespace characters stand next to each other. */
  predicate NoAdjacentSpaces(r: string) {
    forall k :: 0 <= k < |r| - 1 ==> !(IsSpace(r[k]) && IsSpace(r[k + 1]))
  }

  /** The shape the whitespace step guarantees. */
  predicate WhitespaceNormal(r: string) {
    IsTrimmed(r) && OnlyPlainSpaces(r) && NoAdjacentSpaces(r)
  }

  /** `s.replace(/\s+/g, " ")`: every maximal run of whitespace becomes one space. */
  function CollapseWhitespace(s: string): (r: string)
    decreases |s|
    ensures r == [] <==> s == []
    ensures s != [] ==> (IsSpace(r[0]) <==> IsSpace(s[0]))
  {
    if s == [] then []
    else if IsSpace(s[0]) then
      var t := TrimStart(s);
      assert |t| < |s| by { assert t != [] ==> t[0] != s[0]; }
      " " + CollapseWhitespace(t)
    else [s[0]] + CollapseWhitespace(s[1..])
  }

  /** Lines 81-82. */
  function NormalizeWhitespace(s: string): (r: string)
    ensures WhitespaceNormal(r)
  {
    var c := CollapseWhitespace(s);
    CollapseSpacing(s);
    TrimKeepsSpacing(c);
    Trim(c)
  }

  /** After the collapse every whitespace character is a plain space and no two stand
      next to each other. */
  lemma {:induction false} CollapseSpacing(s: string)
    decreases |s|
    ensures OnlyPlainSpaces(CollapseWhitespace(s)) && NoAdjacentSpaces(CollapseWhitespace(s))
  {
    if s != [] {
      var r := CollapseWhitespace(s);
      var t := if IsSpace(s[0]) then TrimStart(s) else s[1..];
      var rt := CollapseWhitespace(t);
      assert r == [r[0]] + rt;
      CollapseSpacing(t);
      assert IsSpace(s[0]) ==> rt == [] || !IsSpace(rt[0]);
      forall k | 0 <= k < |r| && IsSpace(r[k]) ensures r[k] == ' ' {
        if k > 0 { assert r[k] == rt[k - 1]; }
      }
      forall k | 0 <= k < |r| - 1 ensures !(IsSpace(r[k]) && IsSpace(r[k + 1])) {
        if k > 0 { assert r[k] == rt[k - 1] && r[k + 1] == rt[k]; }
      }
    }
  }

  lemma TrimKeepsSpacing(c: string)
    requires OnlyPlainSpaces(c) && NoAdjacentSpaces(c)
    ensures OnlyPlainSpaces(Trim(c)) && NoAdjacentSpaces(Trim(c))
  {
    var t, i := Trim(c), TrimOffset(c);
    assert TrimmedAt(c, t, i);
    SliceKeepsSpacing(c, i, i + |t|);
  }

  lemma SliceKeepsSpacing(c: string, i: nat, j: nat)
    requires OnlyPlainSpaces(c) && NoAdjacentSpaces(c) && i <= j <= |c|
    ensures OnlyPlainSpaces(c[i..j]) && NoAdjacentSpaces(c[i..j])
  {
    var r := c[i..j];
    forall k | 0 <= k < |r| && IsSpace(r[k]) ensures r[k] == ' ' {
      assert r[k] == c[i + k];
    }
    forall k | 0 <= k < |r| - 1 ensures !(IsSpace(r[k]) && IsSpace(r[k + 1])) {
      assert r[k] == c[i + k] && r[k + 1] == c[i + k + 1];
    }
  }

  /** Appending text without whitespace keeps single plain spacing. */
  lemma SpacingAppendWord(a: string, b: string)
    requires OnlyPlainSpaces(a) && NoAdjacentSpaces(a)
    requires forall k :: 0 <= k < |b| ==> !IsSpace(b[k])
    ensures OnlyPlainSpaces(a + b) && NoAdjacentSpaces(a + b)
  {
    var r := a + b;
    forall k | 0 <= k < |r| && IsSpace(r[k]) ensures r[k] == ' ' {
      assert k < |a| && r[k] == a[k];
    }
    forall k | 0 <= k < |r| - 1 ensures !(IsSpace(r[k]) && IsSpace(r[k + 1])) {
      if k + 1 < |a| {
        assert r[k] == a[k] && r[k + 1] == a[k + 1];
      } else {
        assert r[k + 1] == b[k + 1 - |a|];
      }
    }
  }

  /** The non-whitespace characters of `s`, in order. */
  function NonSpace(s: string): (r: string)
  {
    if s == [] then [] else (if IsSpace(s[0]) then [] else [s[0]]) + NonSpace(s[1..])
  }

  lemma {:induction false} NonSpaceAppend(a: string, b: string)
    ensures NonSpace(a + b) == NonSpace(a) + NonSpace(b)
  {
    if a == [] {
      assert a + b == b;
    } else {
      var h := if IsSpace(a[0]) then [] else [a[0]];
      assert (a + b)[0] == a[0];
      assert (a + b)[1..] == a[1..] + b;
      NonSpaceAppend(a[1..], b);
      calc {
        NonSpace(a + b);
        h + NonSpace(a[1..] + b);
        h + (NonSpace(a[1..]) + NonSpace(b));
        (h + NonSpace(a[1..])) + NonSpace(b);
      }
    }
  }

  lemma {:induction false} NonSpaceOfSpaces(a: string)
    requires AllSpace(a)
    ensures NonSpace(a) == []
  {
    if a != [] { NonSpaceOfSpaces(a[1..]); }
  }

  lemma {:induction false} CollapseKeepsNonSpace(s: string)
    decreases |s|
    ensures NonSpace(CollapseWhitespace(s)) == NonSpace(s)
  {
    if s != [] {
      if IsSpace(s[0]) {
        var t := TrimStart(s);
        var d := |s| - |t|;
        assert s == s[..d] + t;
        NonSpaceAppend(s[..d], t);
        NonSpaceOfSpaces(s[..d]);
        CollapseKeepsNonSpace(t);
        NonSpaceAppend(" ", CollapseWhitespace(t));
      } else {
        NonSpaceAppend([s[0]], CollapseWhitespace(s[1..]));
        CollapseKeepsNonSpace(s[1..]);
      }
    }
  }

  /** The whitespace step changes only whitespace: the other characters stay, in order. */
  lemma NormalizeKeepsNonSpace(s: string)
    ensures NonSpace(NormalizeWhitespace(s)) == NonSpace(s)
  {
    CollapseKeepsNonSpace(s);
    TrimKeepsNonSpace(CollapseWhitespace(s));
  }

  lemma TrimKeepsNonSpace(c: string)
    ensures NonSpace(Trim(c)) == NonSpace(c)
  {
    var i := TrimOffset(c);
    var j := i + |Trim(c)|;
    assert TrimmedAt(c, Trim(c), i);
    assert c == c[..i] + c[i..j] + c[j..];
    NonSpaceAround(c[..i], c[i..j], c[j..]);
  }

  lemma NonSpaceAround(a: string, r: string, z: string)
    requires AllSpace(a) && AllSpace(z)
    ensures NonSpace(a + r + z) == NonSpace(r)
  {
    NonSpaceAppend(a + r, z);
    NonSpaceAppend(a, r);
    NonSpaceOfSpaces(a);
    NonSpaceOfSpaces(z);
  }

  lemma {:induction false} CollapseKeepsNormalText(s: string)
    requires OnlyPlainSpaces(s) && NoAdjacentSpaces(s)
    decreases |s|
    ensures CollapseWhitespace(s) == s
  {
    if s != [] {
      if IsSpace(s[0]) {
        assert s[0] == ' ';
        assert TrimStart(s) == s[1..] by {
          if |s| > 1 { assert !IsSpace(s[1]); assert TrimStart(s[1..]) == s[1..]; }
        }
      }
      CollapseKeepsNormalText(s[1..]);
    }
  }

  /** Leading whitespace is dropped up to the first character that is not whitespace. */
  lemma {:induction false} TrimStartOfRun(w: string, y: string)
    requires AllSpace(w) && (y != [] ==> !IsSpace(y[0]))
    decreases |w|
    ensures TrimStart(w + y) == y
  {
    if w == [] {
      assert w + y == y;
    } else {
      assert (w + y)[0] == w[0];
      assert (w + y)[1..] == w[1..] + y;
      TrimStartOfRun(w[1..], y);
    }
  }

  /** Text ending in a character that is not whitespace shields what follows it from
      `TrimStart`. */
  lemma {:induction false} TrimStartAppend(a: string, b: string)
    requires a != [] && !IsSpace(a[|a| - 1])
    decreases |a|
    ensures TrimStart(a + b) == TrimStart(a) + b
  {
    assert (a + b)[0] == a[0];
    if IsSpace(a[0]) {
      assert (a + b)[1..] == a[1..] + b;
      TrimStartAppend(a[1..], b);
    }
  }

  /** `TrimStart` stops at or before a final character that is not whitespace, and moves
      past a leading one that is. */
  lemma {:induction false} TrimStartKeepsLast(s: string)
    requires s != [] && !IsSpace(s[|s| - 1])
    decreases |s|
    ensures TrimStart(s) != [] && TrimStart(s)[|TrimStart(s)| - 1] == s[|s| - 1]
    ensures IsSpace(s[0]) ==> |TrimStart(s)| < |s|
  {
    if IsSpace(s[0]) {
      assert |s| > 1;
      assert s[1..][|s| - 2] == s[|s| - 1];
      TrimStartKeepsLast(s[1..]);
    }
  }

  /** One step of the collapse at a leading whitespace character. */
  lemma CollapseAtSpace(s: string)
    requires s != [] && IsSpace(s[0])
    ensures CollapseWhitespace(s) == " " + CollapseWhitespace(TrimStart(s))
  {
  }

  /** One step of the collapse at a leading character that is not whitespace. */
  lemma CollapseAtChar(s: string)
    requires s != [] && !IsSpace(s[0])
    ensures CollapseWhitespace(s) == [s[0]] + CollapseWhitespace(s[1..])
  {
  }

  /** A run of whitespace never reaches across a character that is not whitespace, so the
      collapse of text ending in one is the collapse of its two parts. */
  lemma {:induction false} CollapseAppend(a: string, b: string)
    requires a != [] && !IsSpace(a[|a| - 1])
    decreases |a|, 2
    ensures CollapseWhitespace(a + b) == CollapseWhitespace(a) + CollapseWhitespace(b)
  {
    if IsSpace(a[0]) {
      CollapseAppendAtSpace(a, b);
    } else {
      CollapseAppendAtChar(a, b);
    }
  }

  lemma {:induction false} CollapseAppendAtSpace(a: string, b: string)
    requires a != [] && !IsSpace(a[|a| - 1]) && IsSpace(a[0])
    decreases |a|, 0
    ensures CollapseWhitespace(a + b) == CollapseWhitespace(a) + CollapseWhitespace(b)
  {
    var s := a + b;
    assert s[0] == a[0];
    TrimStartAppend(a, b);
    TrimStartKeepsLast(a);
    var t := TrimStart(a);
    CollapseAppend(t, b);
    CollapseAtSpace(s);
    CollapseAtSpace(a);
    Regroup(CollapseWhitespace(s), " ", CollapseWhitespace(t), CollapseWhitespace(b), CollapseWhitespace(a));
  }

  lemma {:induction false} CollapseAppendAtChar(a: string, b: string)
    requires a != [] && !IsSpace(a[|a| - 1]) && !IsSpace(a[0])
    decreases |a|, 1
    ensures CollapseWhitespace(a + b) == CollapseWhitespace(a) + CollapseWhitespace(b)
  {
    var c, rest := a[0], a[1..];
    assert a == [c] + rest;
    if rest == [] {
      CollapseConsChar(c, b);
      CollapseConsChar(c, []);
    } else {
      assert rest[|rest| - 1] == a[|a| - 1];
      CollapseConsAppend(c, rest, b);
    }
  }

  lemma {:induction false} CollapseConsAppend(c: char, rest: string, b: string)
    requires !IsSpace(c) && rest != [] && !IsSpace(rest[|rest| - 1])
    decreases |rest| + 1, 0
    ensures CollapseWhitespace([c] + rest + b) == CollapseWhitespace([c] + rest) + CollapseWhitespace(b)
  {
    assert [c] + rest + b == [c] + (rest + b);
    CollapseConsChar(c, rest + b);
    CollapseConsChar(c, rest);
    CollapseAppend(rest, b);
    Regroup(CollapseWhitespace([c] + rest + b), [c], CollapseWhitespace(rest), CollapseWhitespace(b),
            CollapseWhitespace([c] + rest));
  }

  /** One step of the collapse at a character that is not whitespace. */
  lemma CollapseConsChar(c: char, r: string)
    requires !IsSpace(c)
    ensures CollapseWhitespace([c] + r) == [c] + CollapseWhitespace(r)
  {
    assert ([c] + r)[1..] == r;
  }

  lemma Regroup(whole: string, h: string, x: string, y: string, front: string)
    requires whole == h + (x + y) && front == h + x
    ensures whole == front + y
  {
  }

  /** Collapsing keeps a final character that is not whitespace. */
  lemma {:induction false} CollapseLast(s: string)
    requires s != [] && !IsSpace(s[|s| - 1])
    decreases |s|
    ensures CollapseWhitespace(s) != [] && !IsSpace(CollapseWhitespace(s)[|CollapseWhitespace(s)| - 1])
  {
    if IsSpace(s[0]) {
      TrimStartKeepsLast(s);
      CollapseLast(TrimStart(s));
      CollapseAtSpace(s);
    } else {
      CollapseAtChar(s);
      if |s| > 1 {
        assert s[1..][|s| - 2] == s[|s| - 1];
        CollapseLast(s[1..]);
      }
    }
  }

  /** A maximal run of whitespace, of any kind and length, after text `x` and before text
      `y` becomes exactly one space (`CollapseRunFront` covers a run at the start). */
  lemma CollapseRunBetween(x: string, w: string, y: string)
    requires w != [] && AllSpace(w)
    requires x != [] && !IsSpace(x[|x| - 1])
    requires y != [] ==> !IsSpace(y[0])
    ensures CollapseWhitespace(x + w + y) == CollapseWhitespace(x) + " " + CollapseWhitespace(y)
  {
    CollapseRunFront(w, y);
    var wy := w + y;
    assert x + w + y == x + wy;
    CollapseAppend(x, wy);
    Regroup(CollapseWhitespace(x + (w + y)), CollapseWhitespace(x), " ", CollapseWhitespace(y),
            CollapseWhitespace(x) + " ");
  }

  /** A leading run of whitespace collapses to one space. */
  lemma CollapseRunFront(w: string, y: string)
    requires w != [] && AllSpace(w)
    requires y != [] ==> !IsSpace(y[0])
    ensures CollapseWhitespace(w + y) == " " + CollapseWhitespace(y)
  {
    TrimStartOfRun(w, y);
    assert (w + y)[0] == w[0];
    CollapseAtSpace(w + y);
  }

  /** Between two words the whitespace step leaves exactly one space: text `x`, whitespace,
      text `y`, with `x` and `y` non-empty and trimmed, normalizes to the normal forms of
      `x` and `y` joined by one space. */
  lemma NormalizeRunBetween(x: string, w: string, y: string)
    requires x != [] && y != [] && IsTrimmed(x) && IsTrimmed(y)
    requires w != [] && AllSpace(w)
    ensures NormalizeWhitespace(x + w + y) == NormalizeWhitespace(x) + " " + NormalizeWhitespace(y)
  {
    CollapseRunBetween(x, w, y);
    var cx, cy := CollapseWhitespace(x), CollapseWhitespace(y);
    CollapseLast(x);
    CollapseLast(y);
    TrimOfTrimmed(cx);
    TrimOfTrimmed(cy);
    var r := cx + " " + cy;
    assert r[0] == cx[0] && r[|r| - 1] == cy[|cy| - 1];
    TrimOfTrimmed(r);
  }

  /** Text already in the normal form is left alone, so the whitespace step is idempotent. */
  lemma NormalizeFixesNormalText(s: string)
    requires WhitespaceNormal(s)
    ensures NormalizeWhitespace(s) == s
  {
    CollapseKeepsNormalText(s);
    if s != [] {
      assert TrimStart(s) == s;
      assert TrimEnd(s) == s;
    }
  }

  lemma NormalizeIdempotent(s: string)
    ensures NormalizeWhitespace(NormalizeWhitespace(s)) == NormalizeWhitespace(s)
  {
    NormalizeFixesNormalText(NormalizeWhitespace(s));
  }

  lemma NormalizeKeepsTagFree(s: string)
    requires TagFree(s)
    ensures TagFree(NormalizeWhitespace(s))
  {
    var c := CollapseWhitespace(s);
    CollapseKeepsTagFree(s);
    var i := TrimOffset(c);
    TagFreeSlice(c, i, i + |Trim(c)|);
  }

  /** Every character the collapse leaves is a space or a character of its input. */
  lemma {:induction false} CollapseFromInput(s: string)
    decreases |s|
    ensures forall k :: 0 <= k < |CollapseWhitespace(s)| ==>
      CollapseWhitespace(s)[k] == ' ' || CollapseWhitespace(s)[k] in s
  {
    if s != [] {
      var r := CollapseWhitespace(s);
      var t := if IsSpace(s[0]) then TrimStart(s) else s[1..];
      var rt := CollapseWhitespace(t);
      assert r == [r[0]] + rt;
      CollapseFromInput(t);
      forall k | 1 <= k < |r| ensures r[k] == ' ' || r[k] in s {
        assert r[k] == rt[k - 1];
        if rt[k - 1] != ' ' {
          InSuffix(s, t, rt[k - 1]);
        }
      }
    }
  }

  lemma InSuffix(s: string, t: string, c: char)
    requires |t| <= |s| && t == s[|s| - |t|..] && c in t
    ensures c in s
  {
    var j :| 0 <= j < |t| && t[j] == c;
    assert s[|s| - |t| + j] == c;
  }

  lemma {:induction false} CollapseKeepsTagFree(s: string)
    requires TagFree(s)
    decreases |s|
    ensures TagFree(CollapseWhitespace(s))
  {
    if s != [] {
      if IsSpace(s[0]) {
        var t := TrimStart(s);
        TagFreeSuffix(s, |s| - |t|);
        CollapseKeepsTagFree(t);
        TagFreeCons(' ', CollapseWhitespace(t));
      } else {
        var r := CollapseWhitespace(s[1..]);
        TagFreeSuffix(s, 1);
        CollapseKeepsTagFree(s[1..]);
        if s[0] == '<' && '>' in r {
          var k :| 0 <= k < |r| && r[k] == '>';
          CollapseFromInput(s[1..]);
          var m :| 0 <= m < |s[1..]| && s[1..][m] == '>';
          assert s[1 + m] == '>';
          assert s[1] == '>';
        }
        TagFreeCons(s[0], r);
      }
    }
  }

  /* ---------------------------------------------------------------------------
     Truncation   (lines 85-88)
     --------------------------------------------------------------------------- */

  const MaxLength: nat := 15000
  const Ellipsis: string := "..."

  /** Content longer than `MaxLength` keeps its first `MaxLength` characters and gets
      `"..."` appended; shorter content is unchanged. */
  function Truncate(c: string): (r: string)
    ensures |c| <= MaxLength ==> r == c
    ensures |c| > MaxLength ==> |r| == MaxLength + |Ellipsis| && r[..MaxLength] == c[..MaxLength] && r[MaxLength..] == Ellipsis
    ensures |r| <= MaxLength + |Ellipsis|
  {
    if |c| > MaxLength then c[..MaxLength] + Ellipsis else c
  }

  lemma TruncateKeepsShape(c: string)
    requires WhitespaceNormal(c) && TagFree(c)
    ensures WhitespaceNormal(Truncate(c)) && TagFree(Truncate(c))
  {
    if |c| > MaxLength {
      var p := c[..MaxLength];
      TagFreeSlice(c, 0, MaxLength);
      SliceKeepsSpacing(c, 0, MaxLength);
      assert p[0] == c[0];
      EllipsisKeepsShape(p);
      assert Truncate(c) == p + Ellipsis;
    }
  }

  /** The ellipsis after text that starts with a character other than whitespace gives
      normal, tag-free text when that text is. */
  lemma EllipsisKeepsShape(p: string)
    requires p != [] && !IsSpace(p[0]) && OnlyPlainSpaces(p) && NoAdjacentSpaces(p) && TagFree(p)
    ensures WhitespaceNormal(p + Ellipsis) && TagFree(p + Ellipsis)
  {
    TagFreeAppend(p, Ellipsis);
    SpacingAppendWord(p, Ellipsis);
    assert (p + Ellipsis)[0] == p[0];
  }

  /* ---------------------------------------------------------------------------
     The whole text pipeline of lines 77-88
     --------------------------------------------------------------------------- */

  /** Text stages after the main-content selection, in the source's order. */
  function CleanText(s: string): (r: string)
  {
    Truncate(NormalizeWhitespace(RemoveEntities(RemoveCitations(StripTags(s)))))
  }

  /** What the model is sent: no tag, whitespace in normal form, and at most
      `MaxLength + 3` characters. */
  lemma CleanTextShape(s: string)
    ensures var r := CleanText(s);
      NoTag(r) && WhitespaceNormal(r) && |r| <= MaxLength + |Ellipsis|
  {
    var t := StripTags(s);
    StripTagsTagFree(s);
    RemoveCitationsKeepsTagFree(t);
    var e := RemoveEntities(RemoveCitations(t));
    RemoveEntitiesKeepsTagFree(RemoveCitations(t));
    NormalizeKeepsTagFree(e);
    TruncateKeepsShape(NormalizeWhitespace(e));
    TagFreeIsNoTag(CleanText(s));
  }

  lemma {:induction false} RemoveEntitiesKeepsTagFree(s: string)
    requires TagFree(s)
    decreases |s|
    ensures TagFree(RemoveEntities(s))
  {
    if s != [] {
      match EntityMatch(s)
      case Some(n) =>
        TagFreeSuffix(s, n);
        RemoveEntitiesKeepsTagFree(s[n..]);
        TagFreeCons(' ', RemoveEntities(s[n..]));
      case None =>
        var r := RemoveEntities(s[1..]);
        TagFreeSuffix(s, 1);
        RemoveEntitiesKeepsTagFree(s[1..]);
        if s[0] == '<' && '>' in r {
          var k :| 0 <= k < |r| && r[k] == '>';
          var m :| 0 <= m < |s[1..]| && s[1..][m] == '>';
          assert s[1 + m] == '>';
          assert s[1] == '>';
          assert EntityMatch(s[1..]).None?;
        }
        TagFreeCons(s[0], r);
    }
  }
}
