/** The template tokens and `SpannedEmitter`, the callback object that rebuilds each token's
    span for a tokenizer that reports no positions. The tokenizer hands the emitter slices of
    the template text; here every callback receives the slice's text together with its offset
    in the template (offset threading in place of pointer arithmetic). An offset at or past the
    template's length stands for a slice that does not come from the template buffer (a
    transient copy), which the span accumulator ignores. */
module TemplateParser {
  import opened Spans
  import opened Text

  /** `usize::MAX` on a 64-bit target: the accumulator's start before anything was observed. */
  const UsizeMax: nat := 0xFFFF_FFFF_FFFF_FFFF

  datatype TemplateToken =
    | StartTag(name: string, attributes: map<string, string>, selfClosing: bool, span: Span)
    | EndTag(name: string, span: Span)
    | String(content: string, span: Span)
    | Comment(content: string, span: Span)
    | Eof

  /** An error the tokenizer reports through `emit_error`; the emitter only collects them. */
  datatype TokenizerError = TokenizerError(code: string)

  /** A slice the tokenizer passed to a callback: where it starts and how long it is. */
  datatype Fragment = Fragment(offset: nat, len: nat)

  /** `update_span` on the accumulator `(start, end)`: a fragment that starts inside the base
      buffer lowers the start to its offset and raises the end to its end; any other fragment
      leaves the accumulator as it was. */
  function Widen(acc: (nat, nat), baseLen: nat, f: Fragment): (r: (nat, nat))
    ensures f.offset >= baseLen ==> r == acc
    ensures f.offset < baseLen ==> r.0 <= acc.0 && r.0 <= f.offset && (r.0 == acc.0 || r.0 == f.offset)
    ensures f.offset < baseLen ==> r.1 >= acc.1 && r.1 >= f.offset + f.len && (r.1 == acc.1 || r.1 == f.offset + f.len)
  {
    if f.offset < baseLen then
      (if f.offset < acc.0 then f.offset else acc.0,
       if f.offset + f.len > acc.1 then f.offset + f.len else acc.1)
    else acc
  }

  /** The fragments reach the accumulator in any order: the span they give is the same. */
  lemma WidenCommutes(acc: (nat, nat), baseLen: nat, f: Fragment, g: Fragment)
    ensures Widen(Widen(acc, baseLen, f), baseLen, g) == Widen(Widen(acc, baseLen, g), baseLen, f)
  {
  }

  /** The accumulator after the fragments `frags`, starting from the reset state
      `(usize::MAX, 0)` and widened by each fragment in turn. */
  function Accumulate(frags: seq<Fragment>, baseLen: nat): (r: (nat, nat))
    requires baseLen < UsizeMax
    ensures r.0 == UsizeMax || r.0 < baseLen
    decreases |frags|
  {
    if frags == [] then (UsizeMax, 0)
    else Widen(Accumulate(frags[..|frags| - 1], baseLen), baseLen, frags[|frags| - 1])
  }

  /** What the accumulator holds: the reset state exactly when no fragment started inside the
      buffer, and otherwise the least in-buffer offset and the greatest in-buffer fragment
      end, each attained by some fragment. */
  lemma {:induction false} AccumulateBounds(frags: seq<Fragment>, baseLen: nat)
    requires baseLen < UsizeMax
    ensures var r := Accumulate(frags, baseLen);
      && (r.0 == UsizeMax <==> forall i :: 0 <= i < |frags| ==> frags[i].offset >= baseLen)
      && (r.0 == UsizeMax ==> r.1 == 0)
      && (r.0 != UsizeMax ==> r.0 <= r.1)
      && (forall i :: 0 <= i < |frags| && frags[i].offset < baseLen ==>
            r.0 <= frags[i].offset && frags[i].offset + frags[i].len <= r.1)
      && (r.0 != UsizeMax ==> exists i :: 0 <= i < |frags| && frags[i].offset < baseLen && r.0 == frags[i].offset)
      && (r.0 != UsizeMax ==> exists i :: 0 <= i < |frags| && frags[i].offset < baseLen && r.1 == frags[i].offset + frags[i].len)
    decreases |frags|
  {
    if frags != [] {
      var init := frags[..|frags| - 1];
      AccumulateBounds(init, baseLen);
      assert forall i :: 0 <= i < |frags| - 1 ==> init[i] == frags[i];
    }
  }

  /** One more fragment: the accumulator of the longer list is the old one widened. */
  lemma AccumulateSnoc(frags: seq<Fragment>, baseLen: nat, f: Fragment)
    requires baseLen < UsizeMax
    ensures Accumulate(frags + [f], baseLen) == Widen(Accumulate(frags, baseLen), baseLen, f)
  {
    assert (frags + [f])[..|frags|] == frags;
  }

  /** `create_span` on the accumulator values: start 0 when nothing was observed, never an end
      before the start, and for tags one position more to the left, so that the span covers
      the `<` the tokenizer consumes without passing it to any callback. */
  function SpanOf(acc: (nat, nat), isTag: bool): (r: Span)
    ensures r.start <= r.end
    ensures acc == (UsizeMax, 0) ==> r == Span(0, 0)
    ensures acc.0 != UsizeMax && acc.0 <= acc.1 ==> r.end == acc.1
    ensures acc.0 != UsizeMax && isTag && acc.0 > 0 ==> r.start + 1 == acc.0
    ensures acc.0 != UsizeMax && !(isTag && acc.0 > 0) ==> r.start == acc.0
  {
    var start := if acc.0 == UsizeMax then 0 else acc.0;
    var end := if start > acc.1 then start else acc.1;
    Span(if isTag && start > 0 then start - 1 else start, end)
  }

  /** The span given to a token whose fragments were `frags`. */
  function TokenSpan(frags: seq<Fragment>, baseLen: nat, isTag: bool): Span
    requires baseLen < UsizeMax
  {
    SpanOf(Accumulate(frags, baseLen), isTag)
  }

  /** A token whose fragments all lie wholly inside the template gets a span inside the
      template: `0 <= start <= end <= baseLen`. */
  lemma TokenSpanWithinTemplate(frags: seq<Fragment>, baseLen: nat, isTag: bool)
    requires baseLen < UsizeMax
    requires forall i :: 0 <= i < |frags| ==> frags[i].offset + frags[i].len <= baseLen
    ensures TokenSpan(frags, baseLen, isTag).start <= TokenSpan(frags, baseLen, isTag).end <= baseLen
  {
    var acc := Accumulate(frags, baseLen);
    AccumulateBounds(frags, baseLen);
    if acc.0 != UsizeMax {
      var i :| 0 <= i < |frags| && frags[i].offset < baseLen && acc.1 == frags[i].offset + frags[i].len;
    }
  }

  /** The start of a tag's span: when its first in-buffer fragment begins at `p > 0` (the tag
      name, just after `<`), the span starts at `p - 1`, the `<` itself. */
  lemma TagSpanStartsAtOpenBracket(frags: seq<Fragment>, baseLen: nat, p: nat)
    requires baseLen < UsizeMax && 0 < p
    requires exists i :: 0 <= i < |frags| && frags[i].offset == p && p < baseLen
    requires forall i :: 0 <= i < |frags| && frags[i].offset < baseLen ==> p <= frags[i].offset
    ensures TokenSpan(frags, baseLen, true).start == p - 1
  {
    var acc := Accumulate(frags, baseLen);
    AccumulateBounds(frags, baseLen);
    var j :| 0 <= j < |frags| && frags[j].offset == p && p < baseLen;
    assert acc.0 <= p;
    var k :| 0 <= k < |frags| && frags[k].offset < baseLen && acc.0 == frags[k].offset;
  }

  /** Flushes the pending attribute into the map: only when it has a name, and a name already
      present takes the newer value. */
  function Flush(attributes: map<string, string>, name: string, value: string): (r: map<string, string>)
    ensures name == [] ==> r == attributes
    ensures name != [] ==> r.Keys == attributes.Keys + {name} && r[name] == value
    ensures forall k :: k in attributes && k != name ==> k in r && r[k] == attributes[k]
  {
    if name != [] then attributes[name := value] else attributes
  }

  /** Last value wins: flushing the same name twice keeps only the second value. */
  lemma FlushLastValueWins(attributes: map<string, string>, name: string, v1: string, v2: string)
    ensures Flush(Flush(attributes, name, v1), name, v2) == Flush(attributes, name, v2)
  {
  }

  class SpannedEmitter {
    /** `base_len`: the length of the template text; `base_ptr` has no counterpart, the
        offsets are given directly. */
    const baseLen: nat

    var currentTokenStart: nat
    var currentTokenEnd: nat
    var currentIsEndTag: bool
    var currentTagName: string
    var currentAttributes: map<string, string>
    var currentAttrName: string
    var currentAttrValue: string
    var selfClosing: bool

    /** `emitted_tokens`, the FIFO queue the tokenizer drains through `pop_token`. */
    var emittedTokens: seq<TemplateToken>
    var errors: seq<TokenizerError>

    /** The fragments seen since the last reset; the accumulator is their summary. */
    ghost var observed: seq<Fragment>

    ghost predicate Valid()
      reads this
    {
      baseLen < UsizeMax && (currentTokenStart, currentTokenEnd) == Accumulate(observed, baseLen)
    }

    /** What `reset_current` leaves behind, apart from the end-tag flag. */
    ghost predicate Cleared()
      reads this
    {
      && currentTokenStart == UsizeMax && currentTokenEnd == 0 && observed == []
      && currentTagName == [] && currentAttributes == map[]
      && currentAttrName == [] && currentAttrValue == [] && !selfClosing
    }

    /** `SpannedEmitter::new`: an empty accumulator over a template of `|input|` bytes. */
    constructor (input: string)
      requires |input| < UsizeMax
      ensures Valid() && Cleared() && !currentIsEndTag
      ensures baseLen == |input| && emittedTokens == [] && errors == []
    {
      baseLen := |input|;
      currentTokenStart := UsizeMax;
      currentTokenEnd := 0;
      currentIsEndTag := false;
      currentTagName := [];
      currentAttributes := map[];
      currentAttrName := [];
      currentAttrValue := [];
      selfClosing := false;
      emittedTokens := [];
      errors := [];
      observed := [];
    }

    /** `update_span`: fold the fragment at `offset` of length `len` into the accumulator if it
        starts inside the template. */
    method UpdateSpan(offset: nat, len: nat)
      requires Valid()
      modifies this`currentTokenStart, this`currentTokenEnd, this`observed
      ensures Valid() && observed == old(observed) + [Fragment(offset, len)]
      ensures (currentTokenStart, currentTokenEnd)
           == Widen((old(currentTokenStart), old(currentTokenEnd)), baseLen, Fragment(offset, len))
    {
      if offset < baseLen {
        var start := offset;
        var end := offset + len;
        if start < currentTokenStart {
          currentTokenStart := start;
        }
        if end > currentTokenEnd {
          currentTokenEnd := end;
        }
      }
      AccumulateSnoc(observed, baseLen, Fragment(offset, len));
      observed := observed + [Fragment(offset, len)];
    }

    /** `reset_current`. */
    method ResetCurrent()
      requires baseLen < UsizeMax
      modifies this`currentTokenStart, this`currentTokenEnd, this`currentIsEndTag, this`currentTagName,
               this`currentAttributes, this`currentAttrName, this`currentAttrValue, this`selfClosing,
               this`observed
      ensures Valid() && Cleared() && !currentIsEndTag
    {
      currentTokenStart := UsizeMax;
      currentTokenEnd := 0;
      currentIsEndTag := false;
      currentTagName := [];
      currentAttributes := map[];
      currentAttrName := [];
      currentAttrValue := [];
      selfClosing := false;
      observed := [];
    }

    /** `create_span`: the span of the token under construction. */
    function CreateSpan(isTag: bool): (r: Span)
      reads this
      requires Valid()
      ensures r == TokenSpan(observed, baseLen, isTag)
    {
      SpanOf((currentTokenStart, currentTokenEnd), isTag)
    }

    /** `emit_string`: a text run becomes one `String` token whose span comes from the
        fragments seen so far and the text's own fragment; then the state is reset. */
    method EmitString(s: string, offset: nat)
      requires Valid()
      modifies this
      ensures Valid() && Cleared() && !currentIsEndTag && errors == old(errors)
      ensures emittedTokens
           == old(emittedTokens) + [String(s, TokenSpan(old(observed) + [Fragment(offset, |s|)], baseLen, false))]
    {
      UpdateSpan(offset, |s|);
      emittedTokens := emittedTokens + [String(s, CreateSpan(false))];
      ResetCurrent();
    }

    /** `emit_eof`: queues the end-of-stream marker; nothing is reset. */
    method EmitEof()
      modifies this`emittedTokens
      ensures emittedTokens == old(emittedTokens) + [Eof]
    {
      emittedTokens := emittedTokens + [Eof];
    }

    /** `emit_error`: the error is collected. */
    method EmitError(error: TokenizerError)
      modifies this`errors
      ensures errors == old(errors) + [error]
    {
      errors := errors + [error];
    }

    /** `pop_token`: the oldest queued token, so tokens leave in the order they came in. */
    method PopToken() returns (token: Option<TemplateToken>)
      modifies this`emittedTokens
      ensures old(emittedTokens) == [] ==> token == None && emittedTokens == []
      ensures old(emittedTokens) != [] ==>
                token == Some(old(emittedTokens)[0]) && emittedTokens == old(emittedTokens)[1..]
    {
      if emittedTokens == [] {
        token := None;
      } else {
        token := Some(emittedTokens[0]);
        emittedTokens := emittedTokens[1..];
      }
    }

    /** `finish`: drains the queue, oldest token first. */
    method Finish() returns (tokens: seq<TemplateToken>)
      modifies this`emittedTokens
      ensures tokens == old(emittedTokens) && emittedTokens == []
    {
      tokens := emittedTokens;
      emittedTokens := [];
    }

    /** `init_start_tag`. */
    method InitStartTag()
      requires baseLen < UsizeMax
      modifies this
      ensures Valid() && Cleared() && !currentIsEndTag
      ensures emittedTokens == old(emittedTokens) && errors == old(errors)
    {
      ResetCurrent();
      currentIsEndTag := false;
    }

    /** `init_end_tag`: the one init that marks the tag under construction as an end tag. */
    method InitEndTag()
      requires baseLen < UsizeMax
      modifies this
      ensures Valid() && Cleared() && currentIsEndTag
      ensures emittedTokens == old(emittedTokens) && errors == old(errors)
    {
      ResetCurrent();
      currentIsEndTag := true;
    }

    /** `init_comment`. */
    method InitComment()
      requires baseLen < UsizeMax
      modifies this
      ensures Valid() && Cleared() && !currentIsEndTag
      ensures emittedTokens == old(emittedTokens) && errors == old(errors)
    {
      ResetCurrent();
    }

    /** `emit_current_tag`: flushes the pending attribute, then queues an `EndTag` when the
        last init was `init_end_tag` and a `StartTag` with the attributes and the self-closing
        flag otherwise; then the state is reset. (The tokenizer state it returns is always
        `None` and is not modelled.) */
    method EmitCurrentTag()
      requires Valid()
      modifies this
      ensures Valid() && Cleared() && !currentIsEndTag && errors == old(errors)
      ensures emittedTokens == old(emittedTokens) + [
                if old(currentIsEndTag) then
                  EndTag(old(currentTagName), TokenSpan(old(observed), baseLen, true))
                else
                  StartTag(old(currentTagName),
                           Flush(old(currentAttributes), old(currentAttrName), old(currentAttrValue)),
                           old(selfClosing), TokenSpan(old(observed), baseLen, true))]
    {
      if currentAttrName != [] {
        currentAttributes := currentAttributes[currentAttrName := currentAttrValue];
        currentAttrName := [];
        currentAttrValue := [];
      }
      var span := CreateSpan(true);
      var name := currentTagName;
      if currentIsEndTag {
        emittedTokens := emittedTokens + [EndTag(name, span)];
      } else {
        emittedTokens := emittedTokens + [StartTag(name, currentAttributes, selfClosing, span)];
      }
      ResetCurrent();
    }

    /** `emit_current_comment`: the comment text (kept in the tag-name buffer) becomes one
        `Comment` token with an uncorrected span; then the state is reset. */
    method EmitCurrentComment()
      requires Valid()
      modifies this
      ensures Valid() && Cleared() && !currentIsEndTag && errors == old(errors)
      ensures emittedTokens
           == old(emittedTokens) + [Comment(old(currentTagName), TokenSpan(old(observed), baseLen, false))]
    {
      var span := CreateSpan(false);
      emittedTokens := emittedTokens + [Comment(currentTagName, span)];
      ResetCurrent();
    }

    /** `emit_current_doctype`: doctypes produce no token, only a reset. */
    method EmitCurrentDoctype()
      requires baseLen < UsizeMax
      modifies this
      ensures Valid() && Cleared() && !currentIsEndTag
      ensures emittedTokens == old(emittedTokens) && errors == old(errors)
    {
      ResetCurrent();
    }

    /** `set_self_closing`. */
    method SetSelfClosing()
      modifies this`selfClosing
      ensures selfClosing
    {
      selfClosing := true;
    }

    /** `push_tag_name`: the fragment widens the span and extends the name. */
    method PushTagName(s: string, offset: nat)
      requires Valid()
      modifies this`currentTokenStart, this`currentTokenEnd, this`observed, this`currentTagName
      ensures Valid() && observed == old(observed) + [Fragment(offset, |s|)]
      ensures currentTagName == old(currentTagName) + s
    {
      UpdateSpan(offset, |s|);
      currentTagName := currentTagName + s;
    }

    /** `push_comment`: like `push_tag_name`, the comment text shares the tag-name buffer. */
    method PushComment(s: string, offset: nat)
      requires Valid()
      modifies this`currentTokenStart, this`currentTokenEnd, this`observed, this`currentTagName
      ensures Valid() && observed == old(observed) + [Fragment(offset, |s|)]
      ensures currentTagName == old(currentTagName) + s
    {
      UpdateSpan(offset, |s|);
      currentTagName := currentTagName + s;
    }

    /** `init_attribute`: a pending attribute with a name goes into the map and the pending
        name and value are cleared; with no name nothing happens, and a value pushed so far
        stays pending. */
    method InitAttribute()
      modifies this`currentAttributes, this`currentAttrName, this`currentAttrValue
      ensures currentAttributes == Flush(old(currentAttributes), old(currentAttrName), old(currentAttrValue))
      ensures currentAttrName == []
      ensures currentAttrValue == if old(currentAttrName) == [] then old(currentAttrValue) else []
    {
      if currentAttrName != [] {
        currentAttributes := currentAttributes[currentAttrName := currentAttrValue];
        currentAttrName := [];
        currentAttrValue := [];
      }
    }

    /** `push_attribute_name`. */
    method PushAttributeName(s: string, offset: nat)
      requires Valid()
      modifies this`currentTokenStart, this`currentTokenEnd, this`observed, this`currentAttrName
      ensures Valid() && observed == old(observed) + [Fragment(offset, |s|)]
      ensures currentAttrName == old(currentAttrName) + s
    {
      UpdateSpan(offset, |s|);
      currentAttrName := currentAttrName + s;
    }

    /** `push_attribute_value`. */
    method PushAttributeValue(s: string, offset: nat)
      requires Valid()
      modifies this`currentTokenStart, this`currentTokenEnd, this`observed, this`currentAttrValue
      ensures Valid() && observed == old(observed) + [Fragment(offset, |s|)]
      ensures currentAttrValue == old(currentAttrValue) + s
    {
      UpdateSpan(offset, |s|);
      currentAttrValue := currentAttrValue + s;
    }
  }

  /** The callbacks a tokenizer issues for the template text `<li v-for="i in items">`
      (tag name at 1, attribute name at 4, attribute value at 11) yield one start tag whose
      span starts at the `<` and ends with the attribute value: the closing `">` was never
      passed to a callback, so it lies outside the span. */
  method VForListItemExample() returns (token: Option<TemplateToken>)
    ensures token == Some(StartTag("li", map["v-for" := "i in items"], false, Span(0, 21)))
  {
    var e := new SpannedEmitter("<li v-for=\"i in items\">");
    e.InitStartTag();
    e.PushTagName("li", 1);
    assert e.currentTagName == [] + "li" == "li";
    assert (e.currentTokenStart, e.currentTokenEnd) == (1, 3);
    e.InitAttribute();
    e.PushAttributeName("v-for", 4);
    assert e.currentAttrName == [] + "v-for" == "v-for";
    assert (e.currentTokenStart, e.currentTokenEnd) == (1, 9);
    e.PushAttributeValue("i in items", 11);
    assert e.currentAttrValue == [] + "i in items" == "i in items";
    assert (e.currentTokenStart, e.currentTokenEnd) == (1, 21);
    assert SpanOf((1, 21), true) == Span(0, 21);
    assert Flush(map[], "v-for", "i in items") == map["v-for" := "i in items"];
    assert TokenSpan(e.observed, e.baseLen, true) == Span(0, 21);
    assert e.emittedTokens == [];
    e.EmitCurrentTag();
    assert e.emittedTokens == [StartTag("li", map["v-for" := "i in items"], false, Span(0, 21))];
    token := e.PopToken();
  }
}
