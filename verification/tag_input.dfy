/** The tag list typed into the submit form: `tags.split(',').map(t => t.trim())
    .filter(Boolean)` (src/components/SubmitPostModal.tsx, line 20). */
module TagInput {
  import Seqs
  import Text

  /** Each piece trimmed, in order (`.map(t => t.trim())`). */
  function TrimAll(pieces: seq<string>): (r: seq<string>)
    ensures |r| == |pieces|
    ensures forall i :: 0 <= i < |pieces| ==> r[i] == Text.Trim(pieces[i])
  {
    if |pieces| == 0 then [] else [Text.Trim(pieces[0])] + TrimAll(pieces[1..])
  }

  /** A string is truthy exactly when it is not empty (`.filter(Boolean)`). */
  predicate NonEmpty(t: string) { t != "" }

  /** The tags the form sends for the text in the tags field: at most one
      per comma-separated piece, none of them empty. */
  function ParseTags(input: string): (r: seq<string>)
    ensures |r| <= |Text.Split(input, ',')|
    ensures forall t :: t in r ==> t != ""
  {
    Seqs.Filter(TrimAll(Text.Split(input, ',')), NonEmpty)
  }

  /** A tag is one trimmed, non-empty piece of the input. */
  lemma TagIsTrimmedPiece(input: string, i: nat)
    requires i < |ParseTags(input)|
    ensures exists j :: 0 <= j < |Text.Split(input, ',')| && ParseTags(input)[i] == Text.Trim(Text.Split(input, ',')[j])
    ensures ParseTags(input)[i] != ""
  {
    assert ParseTags(input)[i] in TrimAll(Text.Split(input, ','));
  }

  /** Every tag is non-empty, has no white space at either end, holds no comma,
      and is made of characters of the input. */
  lemma TagsAreClean(input: string, i: nat)
    requires i < |ParseTags(input)|
    ensures ParseTags(input)[i] != ""
    ensures !Text.IsWhitespace(ParseTags(input)[i][0])
    ensures !Text.IsWhitespace(ParseTags(input)[i][|ParseTags(input)[i]| - 1])
    ensures ',' !in ParseTags(input)[i]
    ensures forall c :: c in ParseTags(input)[i] ==> c in input
  {
    var pieces := Text.Split(input, ',');
    TagIsTrimmedPiece(input, i);
    var j :| 0 <= j < |pieces| && ParseTags(input)[i] == Text.Trim(pieces[j]);
    forall c | c in ParseTags(input)[i]
      ensures c in input && c != ','
    {
      Text.SplitPieceChars(input, ',', j, c);
    }
  }

  /** A filter that nothing passes leaves nothing. */
  lemma FilterNone(s: seq<string>)
    requires forall i :: 0 <= i < |s| ==> s[i] == ""
    ensures Seqs.Filter(s, NonEmpty) == []
  {
  }

  /** Trimming pieces one by one distributes over concatenation. */
  lemma {:induction false} TrimAllConcat(a: seq<string>, b: seq<string>)
    ensures TrimAll(a + b) == TrimAll(a) + TrimAll(b)
  {
    if |a| > 0 {
      assert (a + b)[1..] == a[1..] + b;
      TrimAllConcat(a[1..], b);
    } else {
      assert a + b == b;
    }
  }

  /** A piece of input made of white space and commas trims to nothing. */
  lemma BlankPiece(input: string, j: nat)
    requires forall i :: 0 <= i < |input| ==> Text.IsWhitespace(input[i]) || input[i] == ','
    requires j < |Text.Split(input, ',')|
    ensures Text.Trim(Text.Split(input, ',')[j]) == ""
  {
    var piece := Text.Split(input, ',')[j];
    forall k | 0 <= k < |piece|
      ensures Text.IsWhitespace(piece[k])
    {
      Text.SplitPieceChars(input, ',', j, piece[k]);
    }
    Text.TrimBlank(piece);
  }

  /** Input made only of white space and commas, the empty input included,
      yields no tags. */
  lemma BlankInputHasNoTags(input: string)
    requires forall i :: 0 <= i < |input| ==> Text.IsWhitespace(input[i]) || input[i] == ','
    ensures ParseTags(input) == []
  {
    var pieces := Text.Split(input, ',');
    forall j | 0 <= j < |pieces|
      ensures TrimAll(pieces)[j] == ""
    {
      BlankPiece(input, j);
    }
    FilterNone(TrimAll(pieces));
  }

  /** The text is read piece by piece, left to right: text on either side of a
      comma contributes its own tags, in order. */
  lemma CommaConcatenates(a: string, b: string)
    ensures ParseTags(a + "," + b) == ParseTags(a) + ParseTags(b)
  {
    Text.SplitConcat(a, ',', b);
    var pa, pb := Text.Split(a, ','), Text.Split(b, ',');
    TrimAllConcat(pa, pb);
    Seqs.FilterConcat(TrimAll(pa), TrimAll(pb), NonEmpty);
  }

  /** Tags that are non-empty, trimmed and comma-free come back unchanged
      from being joined with commas and parsed. */
  lemma CleanTagsReparse(tags: seq<string>)
    requires |tags| > 0
    requires forall i :: 0 <= i < |tags| ==> ',' !in tags[i] && Text.Trim(tags[i]) == tags[i] && NonEmpty(tags[i])
    ensures ParseTags(Text.Join(tags, ',')) == tags
  {
    Text.SplitJoin(tags, ',');
    assert TrimAll(tags) == tags;
    Seqs.FilterKeepsAll(tags, NonEmpty);
  }

  /** The parsed tags are non-empty, trimmed and comma-free. */
  lemma ParsedTagsClean(input: string)
    ensures forall i :: 0 <= i < |ParseTags(input)| ==>
      ',' !in ParseTags(input)[i] && Text.Trim(ParseTags(input)[i]) == ParseTags(input)[i] && NonEmpty(ParseTags(input)[i])
  {
    var tags := ParseTags(input);
    forall i | 0 <= i < |tags|
      ensures ',' !in tags[i] && Text.Trim(tags[i]) == tags[i] && NonEmpty(tags[i])
    {
      TagIsTrimmed(input, i);
    }
  }

  /** A tag trims to itself. */
  lemma TagIsTrimmed(input: string, i: nat)
    requires i < |ParseTags(input)|
    ensures var t := ParseTags(input)[i]; ',' !in t && Text.Trim(t) == t && NonEmpty(t)
  {
    var t := ParseTags(input)[i];
    TagsAreClean(input, i);
    assert !Text.IsWhitespace(t[0]) && !Text.IsWhitespace(t[|t| - 1]);
    Text.TrimIdentity(t);
  }

  /** Parsing the tags joined with commas gives the same tags back. */
  lemma ReparseIsIdentity(input: string)
    ensures ParseTags(Text.Join(ParseTags(input), ',')) == ParseTags(input)
  {
    var joined := Text.Join(ParseTags(input), ',');
    if ParseTags(input) == [] {
      assert |joined| == 0;
      BlankInputHasNoTags(joined);
    } else {
      ParsedTagsClean(input);
      CleanTagsReparse(ParseTags(input));
    }
  }
}
