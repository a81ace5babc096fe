/** Splitting a single-file component into its script and template blocks: a first-match,
    non-nested search for an opening tag, the `>` that ends it and the closing tag after it. */
module Extraction {
  import opened Text
  import opened LinterData

  const ScriptOpen: string := "<script"
  const ScriptClose: string := "</script>"
  const TemplateOpen: string := "<template"
  const TemplateClose: string := "</template>"

  /** The block located by the three searches: the opening tag first occurs at `p`, the first
      `>` from there is at `g`, and the first closing tag after `g` begins at `e`. */
  predicate Located(original: string, open: string, close: string, p: nat, g: nat, e: nat)
  {
    FirstFrom(original, open, 0, p) && FirstFrom(original, ">", p, g) && FirstFrom(original, close, g + 1, e)
  }

  /** The inner text of the block and its absolute start offset; `("", 0)` when any of the
      three searches fails. */
  function Block(original: string, open: string, close: string): (r: (string, nat))
    ensures forall p: nat, g: nat, e: nat :: Located(original, open, close, p, g, e) ==> r == (original[g + 1..e], g + 1)
    ensures (forall p: nat, g: nat, e: nat :: !Located(original, open, close, p, g, e)) ==> r == ([], 0)
  {
    match Find(original, open, 0)
    case None => ([], 0)
    case Some(p) =>
      match Find(original, ">", p)
      case None => ([], 0)
      case Some(g) =>
        match Find(original, close, g + 1)
        case None => ([], 0)
        case Some(e) =>
          assert Located(original, open, close, p, g, e);
          assert forall p': nat, g': nat, e': nat :: Located(original, open, close, p', g', e') ==> p' == p && g' == g && e' == e by {
            forall p': nat, g': nat, e': nat | Located(original, open, close, p', g', e')
              ensures p' == p && g' == g && e' == e
            {
              FirstFromUnique(original, open, 0, p, p');
              FirstFromUnique(original, ">", p, g, g');
              FirstFromUnique(original, close, g + 1, e, e');
            }
          }
          (original[g + 1..e], g + 1)
  }

  /** A block is found exactly when its offset is non-zero: the offset is one past a `>`, so
      it is never 0, and a miss leaves it at 0. An empty block that was found is therefore
      told apart from a missing one by its offset. */
  lemma {:induction false} FoundIffOffsetPositive(original: string, open: string, close: string)
    ensures Block(original, open, close).1 > 0 <==> exists p: nat, g: nat, e: nat :: Located(original, open, close, p, g, e)
    ensures Block(original, open, close).1 == 0 ==> Block(original, open, close).0 == []
  {
    var r := Block(original, open, close);
    if r.1 > 0 {
      var p := Find(original, open, 0).value;
      var g := Find(original, ">", p).value;
      var e := Find(original, close, g + 1).value;
      assert Located(original, open, close, p, g, e);
    }
  }

  /** A found block sits in the file at its offset, right after a `>` and right before the
      closing tag, and no closing tag begins inside it; in particular its text contains no
      closing tag. */
  lemma {:induction false} FoundBlockShape(original: string, open: string, close: string)
    requires close != []
    requires Block(original, open, close).1 > 0
    ensures var (content, offset) := Block(original, open, close);
      && offset + |content| <= |original|
      && original[offset..offset + |content|] == content
      && original[offset - 1] == '>'
      && OccursAt(original, close, offset + |content|)
      && (forall j :: offset <= j < offset + |content| ==> !OccursAt(original, close, j))
      && (forall j :: !OccursAt(content, close, j))
  {
    var p := Find(original, open, 0).value;
    var g := Find(original, ">", p).value;
    var e := Find(original, close, g + 1).value;
    assert FirstFrom(original, close, g + 1, e);
    assert OccursAt(original, ">", g);
    assert original[g..g + 1] == ">";
    NoCloseInside(original, close, g + 1, e);
  }

  /** Where the first closing tag from `b` is at `e`, the text between has no closing tag. */
  lemma {:induction false} NoCloseInside(original: string, close: string, b: nat, e: nat)
    requires close != [] && FirstFrom(original, close, b, e)
    ensures forall j :: !OccursAt(original[b..e], close, j)
  {
    var content := original[b..e];
    forall j: nat
      ensures !OccursAt(content, close, j)
    {
      if j + |close| <= |content| {
        SliceOfSlice(original, b, e, j, j + |close|);
        assert !OccursAt(original, close, b + j);
      }
    }
  }

  lemma SliceOfSlice(s: string, b: nat, e: nat, lo: nat, hi: nat)
    requires b <= e <= |s| && lo <= hi <= e - b
    ensures s[b..e][lo..hi] == s[b + lo..b + hi]
  {
    var l, r := s[b..e][lo..hi], s[b + lo..b + hi];
    forall k | 0 <= k < |l|
      ensures l[k] == r[k]
    {
      assert l[k] == s[b..e][lo + k] == s[b + lo + k];
    }
  }

  /** One block's extraction: `content` and `offset` start as `""` and `0` and are set only
      when all three searches succeed. */
  method ExtractBlock(original: string, open: string, close: string) returns (content: string, offset: nat)
    ensures (content, offset) == Block(original, open, close)
  {
    content := [];
    offset := 0;
    var startTag := Find(original, open, 0);
    if startTag.Some? {
      var contentStart := Find(original, ">", startTag.value);
      if contentStart.Some? {
        var actualStart := contentStart.value + 1;
        var endTag := Find(original, close, actualStart);
        if endTag.Some? {
          offset := actualStart;
          content := original[actualStart..endTag.value];
        }
      }
    }
  }

  /** The extraction at the start of `lint_file`: the script block, then the template block,
      of the file read from `path`. */
  method ExtractBlocks(path: string, original: string) returns (sourceFile: SourceFile)
    ensures sourceFile.path == path && sourceFile.originalContent == original
    ensures (sourceFile.scriptContent, sourceFile.scriptStartOffset) == Block(original, ScriptOpen, ScriptClose)
    ensures (sourceFile.templateContent, sourceFile.templateStartOffset) == Block(original, TemplateOpen, TemplateClose)
  {
    var scriptContent, scriptStartOffset := ExtractBlock(original, ScriptOpen, ScriptClose);
    var templateContent, templateStartOffset := ExtractBlock(original, TemplateOpen, TemplateClose);
    sourceFile := SourceFile(path, original, scriptContent, scriptStartOffset, templateContent, templateStartOffset);
  }
}
