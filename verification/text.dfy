/** The string operations the add-book form relies on, as JavaScript defines
    them: `trim`, `split` on one separator character, `join`, and the tag
    parser built from them. */
module Text {
  import Seqs

  /** The code points `String.prototype.trim` removes: ECMAScript's WhiteSpace
      (tab, vertical tab, form feed, space, no-break space, byte order mark and
      the Unicode space separators) and LineTerminator (LF, CR, LS, PS). */
  predicate IsSpace(c: char) {
    || c == '\t' || c == '\n' || c == '\U{000B}' || c == '\U{000C}' || c == '\r'
    || c == ' ' || c == '\U{00A0}' || c == '\U{1680}'
    || ('\U{2000}' <= c <= '\U{200A}')
    || c == '\U{2028}' || c == '\U{2029}' || c == '\U{202F}' || c == '\U{205F}'
    || c == '\U{3000}' || c == '\U{FEFF}'
  }

  /** Neither end of `s` is white space, so `trim` has nothing to remove. */
  predicate Trimmed(s: string) {
    |s| == 0 || (!IsSpace(s[0]) && !IsSpace(s[|s| - 1]))
  }

  function TrimStart(s: string): (r: string)
    ensures |r| <= |s| && r == s[|s| - |r|..]
    ensures |r| > 0 ==> !IsSpace(r[0])
    ensures forall i :: 0 <= i < |s| - |r| ==> IsSpace(s[i])
  {
    if |s| > 0 && IsSpace(s[0]) then TrimStart(s[1..]) else s
  }

  function TrimEnd(s: string): (r: string)
    ensures |r| <= |s| && r == s[..|r|]
    ensures |r| > 0 ==> !IsSpace(r[|r| - 1])
    ensures forall i :: |r| <= i < |s| ==> IsSpace(s[i])
  {
    if |s| > 0 && IsSpace(s[|s| - 1]) then TrimEnd(s[..|s| - 1]) else s
  }

  /** `r` sits at offset `a` of `s` with nothing but white space around it. */
  predicate PaddedAt(s: string, a: int, r: string) {
    && 0 <= a <= |s| - |r|
    && r == s[a..a + |r|]
    && (forall i :: 0 <= i < a ==> IsSpace(s[i]))
    && (forall i :: a + |r| <= i < |s| ==> IsSpace(s[i]))
  }

  /** Where `trim`'s result starts: just after the leading white space. */
  function TrimOffset(s: string): nat {
    |s| - |TrimStart(s)|
  }

  /** An infix is padded when it is a prefix of a suffix and both the part
      before the suffix and the rest of the suffix are white space. */
  lemma PaddedFromParts(s: string, a: int, t: string, r: string)
    requires 0 <= a <= |s| && t == s[a..]
    requires |r| <= |t| && r == t[..|r|]
    requires forall i :: 0 <= i < a ==> IsSpace(s[i])
    requires forall j :: |r| <= j < |t| ==> IsSpace(t[j])
    ensures PaddedAt(s, a, r)
  {
    forall i | a + |r| <= i < |s|
      ensures IsSpace(s[i])
    {
      assert s[i] == t[i - a];
    }
  }

  /** Trimming the start and then the end leaves a padded infix at that offset. */
  lemma TrimStartThenEnd(s: string)
    ensures PaddedAt(s, TrimOffset(s), TrimEnd(TrimStart(s)))
  {
    PaddedFromParts(s, TrimOffset(s), TrimStart(s), TrimEnd(TrimStart(s)));
  }

  /** Every character of an infix occurs in the whole. */
  lemma InfixCharsOccur(s: string, a: int, r: string)
    requires 0 <= a <= |s| - |r| && r == s[a..a + |r|]
    ensures forall k :: 0 <= k < |r| ==> r[k] in s
  {
    forall k | 0 <= k < |r|
      ensures r[k] in s
    {
      assert r[k] == s[a + k];
    }
  }

  /** `String.prototype.trim`: the infix of `s` left after removing the white
      space at its start and at its end, and nothing else. */
  function Trim(s: string): (r: string)
    ensures Trimmed(r)
    ensures |r| <= |s|
    ensures exists a :: PaddedAt(s, a, r)
    ensures forall k :: 0 <= k < |r| ==> r[k] in s
    ensures |r| == 0 ==> forall i :: 0 <= i < |s| ==> IsSpace(s[i])
  {
    TrimStartThenEnd(s);
    InfixCharsOccur(s, TrimOffset(s), TrimEnd(TrimStart(s)));
    TrimEnd(TrimStart(s))
  }

  /** The infix characterisation pins `trim` down: any trimmed infix with only
      white space around it is the result. */
  lemma TrimUnique(s: string, a: int, t: string)
    requires PaddedAt(s, a, t) && Trimmed(t)
    ensures Trim(s) == t
  {
    var r := Trim(s);
    var b := TrimOffset(s);
    TrimStartThenEnd(s);
    assert PaddedAt(s, b, r);
    if |t| > 0 {
      assert s[a] == t[0] && s[a + |t| - 1] == t[|t| - 1];
      assert |r| > 0;
      assert r[0] == s[b] && r[|r| - 1] == s[b + |r| - 1];
      assert b == a;
      assert b + |r| == a + |t|;
    }
  }

  /** Padding `s` with white space keeps every padded infix of `s` padded. */
  lemma PaddedAtWidens(pre: string, s: string, post: string, b: int, r: string)
    requires forall i :: 0 <= i < |pre| ==> IsSpace(pre[i])
    requires forall i :: 0 <= i < |post| ==> IsSpace(post[i])
    requires PaddedAt(s, b, r)
    ensures PaddedAt(pre + s + post, |pre| + b, r)
  {
    var whole := pre + s + post;
    var a := |pre| + b;
    assert whole[a..a + |r|] == r;
    forall i | 0 <= i < a
      ensures IsSpace(whole[i])
    {
      if i < |pre| {
        assert whole[i] == pre[i];
      } else {
        assert whole[i] == s[i - |pre|];
      }
    }
    forall i | a + |r| <= i < |whole|
      ensures IsSpace(whole[i])
    {
      if i < |pre| + |s| {
        assert whole[i] == s[i - |pre|];
      } else {
        assert whole[i] == post[i - |pre| - |s|];
      }
    }
  }

  /** White space added at either end of a string does not change what `trim`
      returns. */
  lemma TrimIgnoresPadding(pre: string, s: string, post: string)
    requires forall i :: 0 <= i < |pre| ==> IsSpace(pre[i])
    requires forall i :: 0 <= i < |post| ==> IsSpace(post[i])
    ensures Trim(pre + s + post) == Trim(s)
  {
    var r := Trim(s);
    var b := TrimOffset(s);
    TrimStartThenEnd(s);
    assert PaddedAt(s, b, r);
    PaddedAtWidens(pre, s, post, b, r);
    TrimUnique(pre + s + post, |pre| + b, r);
  }

  /** Trimming a string that is already trimmed changes nothing. */
  lemma TrimOfTrimmed(s: string)
    requires Trimmed(s)
    ensures Trim(s) == s
  {
  }

  /** One leading space before a non-empty trimmed string is all `trim` removes. */
  lemma TrimAfterSpace(s: string)
    requires Trimmed(s) && |s| > 0
    ensures Trim(" " + s) == s
  {
    assert (" " + s)[1..] == s;
  }

  /** `s.split(sep)` for a one-character separator: the maximal runs between
      separators, including empty ones; the empty string splits into `[""]`. */
  function Split(s: string, sep: char): (r: seq<string>)
    ensures |r| >= 1
    ensures forall i :: 0 <= i < |r| ==> sep !in r[i]
    decreases |s|
  {
    if |s| == 0 then [""]
    else
      var rest := Split(s[1..], sep);
      if s[0] == sep then [""] + rest
      else [[s[0]] + rest[0]] + rest[1..]
  }

  /** `parts.join(sep)`: the parts with `sep` between neighbours; `[]` joins to `""`. */
  function Join(parts: seq<string>, sep: string): string
  {
    if |parts| == 0 then ""
    else if |parts| == 1 then parts[0]
    else parts[0] + sep + Join(parts[1..], sep)
  }

  /** Splitting and joining back with the same separator restores the string. */
  lemma {:induction false} JoinSplit(s: string, sep: char)
    ensures Join(Split(s, sep), [sep]) == s
  {
    if |s| > 0 {
      var rest := Split(s[1..], sep);
      JoinSplit(s[1..], sep);
      if s[0] == sep {
        assert Split(s, sep) == [""] + rest;
        assert ([""] + rest)[1..] == rest;
        assert s == [sep] + s[1..];
      } else {
        var parts := [[s[0]] + rest[0]] + rest[1..];
        assert Split(s, sep) == parts;
        if |rest| == 1 {
          assert Join(rest, [sep]) == rest[0];
        } else {
          assert parts[1..] == rest[1..];
          assert Join(rest, [sep]) == rest[0] + [sep] + Join(rest[1..], [sep]);
        }
        assert s == [s[0]] + s[1..];
      }
    }
  }

  /** A separator-free prefix is glued to the first piece of what follows it. */
  lemma {:induction false} SplitAfterPlain(a: string, t: string, sep: char)
    requires sep !in a
    ensures Split(a + t, sep) == [a + Split(t, sep)[0]] + Split(t, sep)[1..]
    decreases |a|
  {
    var r := Split(t, sep);
    if |a| > 0 {
      assert a[0] in a;
      assert (a + t)[0] == a[0] != sep;
      assert (a + t)[1..] == a[1..] + t;
      SplitAfterPlain(a[1..], t, sep);
      var rest := Split(a[1..] + t, sep);
      assert rest == [a[1..] + r[0]] + r[1..];
      assert Split(a + t, sep) == [[a[0]] + rest[0]] + rest[1..];
      assert [a[0]] + (a[1..] + r[0]) == a + r[0];
    } else {
      assert a + t == t;
      assert a + r[0] == r[0];
      assert r == [r[0]] + r[1..];
    }
  }

  /** Joining separator-free parts and splitting again gives the parts back. */
  lemma {:induction false} SplitJoin(parts: seq<string>, sep: char)
    requires |parts| >= 1
    requires forall i :: 0 <= i < |parts| ==> sep !in parts[i]
    ensures Split(Join(parts, [sep]), sep) == parts
  {
    if |parts| == 1 {
      SplitAfterPlain(parts[0], "", sep);
      assert Split("", sep) == [""];
      assert parts[0] + "" == parts[0];
    } else {
      var tail := Join(parts[1..], [sep]);
      SplitJoin(parts[1..], sep);
      assert Join(parts, [sep]) == parts[0] + ([sep] + tail);
      SplitAfterPlain(parts[0], [sep] + tail, sep);
      assert ([sep] + tail)[0] == sep;
      assert ([sep] + tail)[1..] == tail;
      assert Split([sep] + tail, sep) == [""] + parts[1..];
      assert parts[0] + "" == parts[0];
      assert parts == [parts[0]] + parts[1..];
    }
  }

  /** Each string with one space in front. */
  function Indent(xs: seq<string>): (r: seq<string>)
    ensures |r| == |xs|
    ensures forall i :: 0 <= i < |xs| ==> r[i] == " " + xs[i]
  {
    if |xs| == 0 then [] else [" " + xs[0]] + Indent(xs[1..])
  }

  lemma {:induction false} JoinIndentedHead(x: string, ys: seq<string>)
    ensures Join([" " + x] + ys, ",") == " " + Join([x] + ys, ",")
  {
    if |ys| > 0 {
      assert ([" " + x] + ys)[1..] == ys;
      assert ([x] + ys)[1..] == ys;
    }
  }

  /** Joining with `", "` is joining with `","` after indenting every part but the first. */
  lemma {:induction false} JoinCommaSpace(xs: seq<string>)
    requires |xs| >= 1
    ensures Join(xs, ", ") == Join([xs[0]] + Indent(xs[1..]), ",")
  {
    if |xs| > 1 {
      var rest := xs[1..];
      JoinCommaSpace(rest);
      assert rest[1..] == xs[2..];
      assert Indent(rest) == [" " + rest[0]] + Indent(rest[1..]);
      JoinIndentedHead(rest[0], Indent(rest[1..]));
      assert ([xs[0]] + Indent(rest))[1..] == Indent(rest);
    }
  }

  predicate NonEmpty(s: string) {
    |s| > 0
  }

  /** A well-formed tag: non-empty, trimmed, and free of the separating comma. */
  predicate IsTag(s: string) {
    NonEmpty(s) && Trimmed(s) && ',' !in s
  }

  /** Splitting at one separator: the pieces on either side, concatenated. */
  /** `split` on a string with a known first character. */
  lemma SplitCons(c: char, t: string, sep: char)
    ensures Split([c] + t, sep) ==
      if c == sep then [""] + Split(t, sep)
      else [[c] + Split(t, sep)[0]] + Split(t, sep)[1..]
  {
    assert ([c] + t)[0] == c;
    assert ([c] + t)[1..] == t;
  }

  /** Splitting at one separator: the pieces on either side, concatenated. */
  lemma {:induction false} SplitAtSeparator(a: string, b: string, sep: char)
    ensures Split(a + [sep] + b, sep) == Split(a, sep) + Split(b, sep)
    decreases |a|
  {
    if |a| == 0 {
      assert a + [sep] + b == [sep] + b;
      SplitCons(sep, b, sep);
      assert Split(a, sep) == [""];
    } else {
      SplitAtSeparator(a[1..], b, sep);
      SplitAtSeparatorStep(a[0], a[1..], b, sep);
      assert a == [a[0]] + a[1..];
    }
  }

  /** The inductive step of `SplitAtSeparator`: one more leading character. */
  lemma SplitAtSeparatorStep(c: char, tail: string, b: string, sep: char)
    requires Split(tail + [sep] + b, sep) == Split(tail, sep) + Split(b, sep)
    ensures Split([c] + tail + [sep] + b, sep) == Split([c] + tail, sep) + Split(b, sep)
  {
    var w := tail + [sep] + b;
    assert [c] + tail + [sep] + b == [c] + w;
    SplitCons(c, w, sep);
    SplitCons(c, tail, sep);
    ConsPiece(c, sep, Split(w, sep), Split(tail, sep), Split(b, sep));
  }

  /** The piece algebra behind that step: putting a character in front commutes
      with appending further pieces. */
  lemma ConsPiece(c: char, sep: char, rw: seq<string>, rt: seq<string>, sb: seq<string>)
    requires rw == rt + sb && |rt| >= 1
    ensures (if c == sep then [""] + rw else [[c] + rw[0]] + rw[1..])
      == (if c == sep then [""] + rt else [[c] + rt[0]] + rt[1..]) + sb
  {
    if c != sep {
      assert rw[1..] == rt[1..] + sb;
    }
  }

  /** The tag field's parser: `tags.split(',').map(t => t.trim()).filter(Boolean)`. */
  function ParseTags(field: string): (r: seq<string>)
    ensures forall i :: 0 <= i < |r| ==> IsTag(r[i])
    ensures |r| <= |Split(field, ',')|
  {
    var parts := Split(field, ',');
    var pieces := Seqs.Map(parts, Trim);
    forall i | 0 <= i < |pieces| && NonEmpty(pieces[i])
      ensures IsTag(pieces[i])
    {
      assert pieces[i] == Trim(parts[i]);
    }
    Seqs.FilterSurvivors(pieces, NonEmpty, IsTag);
    Seqs.Filter(pieces, NonEmpty)
  }

  /** A comma-free field is one tag, trimmed, unless it is blank. */
  lemma ParseTagsOfPiece(piece: string)
    requires ',' !in piece
    ensures ParseTags(piece) == (if Trim(piece) == "" then [] else [Trim(piece)])
  {
    SplitAfterPlain(piece, "", ',');
    assert Split("", ',') == [""];
    assert piece + "" == piece;
    assert Split(piece, ',') == [piece];
    assert Seqs.Map([piece], Trim) == [Trim(piece)];
  }

  /** Parsing distributes over a comma: the tags of `a,b` are the tags of `a`
      followed by the tags of `b`. With `ParseTagsOfPiece` this determines the
      parse of every field: each non-blank comma-separated piece, trimmed, in
      order. */
  lemma ParseTagsAtComma(a: string, b: string)
    ensures ParseTags(a + [','] + b) == ParseTags(a) + ParseTags(b)
  {
    SplitAtSeparator(a, b, ',');
    Seqs.MapConcat(Split(a, ','), Split(b, ','), Trim);
    Seqs.FilterConcat(Seqs.Map(Split(a, ','), Trim), Seqs.Map(Split(b, ','), Trim), NonEmpty);
  }

  /** A field holding only white space and commas (the empty field included)
      parses to no tags. */
  lemma BlankFieldHasNoTags(field: string)
    requires forall i :: 0 <= i < |field| ==> IsSpace(field[i]) || field[i] == ','
    ensures ParseTags(field) == []
  {
    var parts := Split(field, ',');
    var pieces := Seqs.Map(parts, Trim);
    JoinSplit(field, ',');
    forall i | 0 <= i < |parts|
      ensures pieces[i] == ""
    {
      PieceOfBlankIsBlank(parts, i, field);
    }
    Seqs.FilterDropsAll(pieces, NonEmpty);
  }

  lemma PieceOfBlankIsBlank(parts: seq<string>, i: int, field: string)
    requires 0 <= i < |parts|
    requires forall j :: 0 <= j < |parts| ==> ',' !in parts[j]
    requires Join(parts, [',']) == field
    requires forall k :: 0 <= k < |field| ==> IsSpace(field[k]) || field[k] == ','
    ensures Trim(parts[i]) == ""
  {
    PartInJoin(parts, i, [',']);
  }

  /** Every character of a part appears in the joined string. */
  lemma {:induction false} PartInJoin(parts: seq<string>, i: int, sep: string)
    requires 0 <= i < |parts|
    ensures forall c :: c in parts[i] ==> c in Join(parts, sep)
  {
    if |parts| > 1 {
      assert Join(parts, sep) == parts[0] + sep + Join(parts[1..], sep);
      if i > 0 {
        PartInJoin(parts[1..], i - 1, sep);
      }
    }
  }

  /** Categories joined with `", "` and parsed back as a tag field are
      recovered exactly, provided each is already a well-formed tag. */
  lemma CategoriesRoundTrip(cats: seq<string>)
    requires forall i :: 0 <= i < |cats| ==> IsTag(cats[i])
    ensures ParseTags(Join(cats, ", ")) == cats
  {
    if |cats| == 0 {
      assert Split("", ',') == [""];
      assert Seqs.Map([""], Trim) == [""];
    } else {
      var parts := [cats[0]] + Indent(cats[1..]);
      JoinCommaSpace(cats);
      SplitIndented(cats, parts);
      TrimIndented(cats, parts);
      Seqs.FilterKeepsAll(cats, NonEmpty);
    }
  }

  lemma SplitIndented(cats: seq<string>, parts: seq<string>)
    requires |cats| >= 1 && parts == [cats[0]] + Indent(cats[1..])
    requires forall i :: 0 <= i < |cats| ==> IsTag(cats[i])
    ensures Split(Join(parts, ","), ',') == parts
  {
    forall i | 0 <= i < |parts|
      ensures ',' !in parts[i]
    {
      if i > 0 {
        assert parts[i] == " " + cats[i];
      }
    }
    SplitJoin(parts, ',');
  }

  lemma TrimIndented(cats: seq<string>, parts: seq<string>)
    requires |cats| >= 1 && parts == [cats[0]] + Indent(cats[1..])
    requires forall i :: 0 <= i < |cats| ==> IsTag(cats[i])
    ensures Seqs.Map(parts, Trim) == cats
  {
    var pieces := Seqs.Map(parts, Trim);
    forall i | 0 <= i < |parts|
      ensures pieces[i] == cats[i]
    {
      if i == 0 {
        TrimOfTrimmed(cats[0]);
      } else {
        assert parts[i] == " " + cats[i];
        TrimAfterSpace(cats[i]);
      }
    }
  }

  /** The well-formedness premise matters: one category holding a comma
      between two tags comes back as those two tags. */
  lemma CommaInCategorySplits(x: string, y: string)
    requires IsTag(x) && IsTag(y)
    ensures ParseTags(Join([x + [','] + y], ", ")) == [x, y]
  {
    assert ParseTags(x) == [x] by {
      TrimOfTrimmed(x);
      ParseTagsOfPiece(x);
    }
    assert ParseTags(y) == [y] by {
      TrimOfTrimmed(y);
      ParseTagsOfPiece(y);
    }
    ParseTagsAtComma(x, y);
  }



}
