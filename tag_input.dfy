/** The tag field of the admin forms (frontend/src/components/admin/ArticleManager.jsx
    and VideoManager.jsx): the list is shown as one text, `tags.join(', ')`, and
    the text typed by the administrator is read back with
    `text.split(',').map(tag => tag.trim()).filter(tag => tag)`. */
module TagInput {
  import opened Strings
  import Data

  /** `parts.map(tag => tag.trim())`. */
  function TrimAll(parts: seq<string>): seq<string>
  {
    seq(|parts|, i requires 0 <= i < |parts| => Trim(parts[i]))
  }

  /** A tag the form can produce: non-empty, trimmed and free of commas. */
  predicate CleanTag(t: string)
  {
    t != "" && IsTrimmed(t) && ',' !in t
  }

  predicate CleanTags(tags: seq<string>)
  {
    forall i :: 0 <= i < |tags| ==> CleanTag(tags[i])
  }

  /** The submitted tag list: split on commas, trim each piece, drop the empty
      ones. At most one tag per comma-separated piece. */
  function ParseTags(text: string): (tags: seq<string>)
    ensures CleanTags(tags)
    ensures |tags| <= Count(text, ',') + 1
  {
    var pieces := Split(text, ',');
    var trimmed := TrimAll(pieces);
    var tags := RemoveEmpty(trimmed);
    assert forall i :: 0 <= i < |tags| ==> tags[i] in trimmed;
    assert forall x :: x in trimmed ==> ',' !in x by {
      forall x | x in trimmed ensures ',' !in x {
        var i :| 0 <= i < |trimmed| && trimmed[i] == x;
        assert ',' !in pieces[i];
        TrimChars(pieces[i]);
      }
    }
    tags
  }

  /** The text the edit form starts from: `tags.join(', ')`. */
  function FormatTags(tags: seq<string>): string
  {
    Join(tags, ", ")
  }

  /** The pieces after the first, each behind the blank that `", "` leaves. */
  function Spaced(tags: seq<string>): (pieces: seq<string>)
    ensures |pieces| == |tags|
  {
    if tags == [] then [] else [" " + tags[0]] + Spaced(tags[1..])
  }

  /** Splitting a `", "`-joined list on commas gives the first tag, then the
      others each with a leading blank. */
  lemma {:induction false} SplitFormatted(pre: string, tags: seq<string>)
    requires |tags| >= 1 && ',' !in pre
    requires forall i :: 0 <= i < |tags| ==> ',' !in tags[i]
    ensures Split(pre + FormatTags(tags), ',') == [pre + tags[0]] + Spaced(tags[1..])
    decreases |tags|
  {
    if |tags| == 1 {
      SplitWithoutSeparator(pre + tags[0], ',');
    } else {
      var rest := " " + FormatTags(tags[1..]);
      assert pre + FormatTags(tags) == (pre + tags[0]) + [','] + rest;
      SplitAtFirstSeparator(pre + tags[0], ',', rest);
      SplitFormatted(" ", tags[1..]);
      assert [" " + tags[1]] + Spaced(tags[2..]) == Spaced(tags[1..]);
    }
  }

  /** Trimming the pieces after the first restores their tags. */
  lemma {:induction false} TrimSpaced(tags: seq<string>)
    requires forall i :: 0 <= i < |tags| ==> IsTrimmed(tags[i])
    ensures TrimAll(Spaced(tags)) == tags
  {
    if tags != [] {
      var pieces := Spaced(tags);
      assert TrimAll(pieces)[1..] == tags[1..] by {
        assert pieces[1..] == Spaced(tags[1..]);
        assert TrimAll(pieces)[1..] == TrimAll(pieces[1..]);
        TrimSpaced(tags[1..]);
      }
      assert TrimAll(pieces)[0] == tags[0] by {
        TrimAfterBlank(tags[0]);
      }
      assert TrimAll(pieces) == [tags[0]] + tags[1..];
    }
  }

  /** Trimming the pieces of a `", "`-joined list of trimmed tags restores the tags. */
  lemma TrimFormattedPieces(tags: seq<string>)
    requires |tags| >= 1
    requires forall i :: 0 <= i < |tags| ==> IsTrimmed(tags[i])
    ensures TrimAll([tags[0]] + Spaced(tags[1..])) == tags
  {
    var rest := Spaced(tags[1..]);
    TrimSpaced(tags[1..]);
    TrimOfTrimmed(tags[0]);
    TrimAllCons(tags[0], rest);
  }

  lemma TrimAllCons(p: string, rest: seq<string>)
    ensures TrimAll([p] + rest) == [Trim(p)] + TrimAll(rest)
  {
    assert TrimAll([p] + rest)[1..] == TrimAll(rest);
  }

  /** The pieces of a `", "`-joined list, split from its start. */
  lemma SplitFormattedText(tags: seq<string>)
    requires |tags| >= 1
    requires forall i :: 0 <= i < |tags| ==> ',' !in tags[i]
    ensures Split(FormatTags(tags), ',') == [tags[0]] + Spaced(tags[1..])
  {
    SplitFormatted("", tags);
    assert "" + FormatTags(tags) == FormatTags(tags);
    assert "" + tags[0] == tags[0];
  }

  /** Round trip: a list of clean tags shown in the edit form and submitted
      unchanged is read back exactly. */
  lemma ParseFormat(tags: seq<string>)
    requires CleanTags(tags)
    ensures ParseTags(FormatTags(tags)) == tags
  {
    if tags == [] {
      assert ParseTags("") == RemoveEmpty([Trim("")]);
    } else {
      var text := FormatTags(tags);
      var pieces := [tags[0]] + Spaced(tags[1..]);
      assert Split(text, ',') == pieces by {
        SplitFormattedText(tags);
      }
      assert TrimAll(pieces) == tags by {
        TrimFormattedPieces(tags);
      }
      assert RemoveEmpty(tags) == tags by {
        RemoveEmptyKeepsNonEmpty(tags);
      }
      assert ParseTags(text) == RemoveEmpty(TrimAll(Split(text, ',')));
    }
  }

  /** The round trip holds exactly for clean tag lists. */
  lemma ParseFormatIff(tags: seq<string>)
    ensures ParseTags(FormatTags(tags)) == tags <==> CleanTags(tags)
  {
    if CleanTags(tags) {
      ParseFormat(tags);
    }
  }

  // ---------------------------------------------------------------------------
  // Inputs that yield no tags

  /** Every character other than the separator lands in some piece. */
  lemma {:induction false} SplitCovers(s: string, sep: char, c: char)
    requires c in s && c != sep
    ensures exists i :: 0 <= i < |Split(s, sep)| && c in Split(s, sep)[i]
  {
    var rest := Split(s[1..], sep);
    if s[0] == c {
      assert c in Split(s, sep)[0];
    } else {
      assert c in s[1..];
      SplitCovers(s[1..], sep, c);
      var i :| 0 <= i < |rest| && c in rest[i];
      if s[0] == sep {
        assert Split(s, sep)[i + 1] == rest[i];
      } else if i == 0 {
        assert c in Split(s, sep)[0];
      } else {
        assert Split(s, sep)[i] == rest[i];
      }
    }
  }

  lemma {:induction false} RemoveEmptyKeepsSome(parts: seq<string>, i: int)
    requires 0 <= i < |parts| && parts[i] != ""
    ensures RemoveEmpty(parts) != []
  {
    if parts[0] == "" {
      assert parts[1..][i - 1] == parts[i];
      RemoveEmptyKeepsSome(parts[1..], i - 1);
    }
  }

  /** An input holds no tag exactly when it consists of commas and whitespace
      only (the empty input included). */
  lemma ParseBlankIff(text: string)
    ensures ParseTags(text) == [] <==> forall c :: c in text ==> IsWhitespace(c) || c == ','
  {
    var pieces := Split(text, ',');
    var trimmed := TrimAll(pieces);
    if forall c :: c in text ==> IsWhitespace(c) || c == ',' {
      SplitPartsChars(text, ',');
      forall i | 0 <= i < |pieces|
        ensures trimmed[i] == ""
      {
        assert forall c :: c in pieces[i] ==> c in text && c != ',';
        TrimAllWhitespace(pieces[i]);
      }
      RemoveEmptyAllEmpty(trimmed);
    } else {
      var c :| c in text && !IsWhitespace(c) && c != ',';
      SplitCovers(text, ',', c);
      var i :| 0 <= i < |pieces| && c in pieces[i];
      TrimChars(pieces[i]);
      RemoveEmptyKeepsSome(trimmed, i);
    }
  }

  /** Submitted tags are stored unchanged by the back end's tag column. */
  lemma ParsedTagsPersist(text: string)
    ensures Data.StorableTags(ParseTags(text))
    ensures Data.Persisted(ParseTags(text)) == ParseTags(text)
  {
    Data.DecodeEncode(ParseTags(text));
  }
}
