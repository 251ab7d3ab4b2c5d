/**
  The converter's handling of data URLs: the MIME type is read out of the
  URL (script.js:166-169) and the part after its '/' becomes the format name
  handed to the PDF writer (script.js:123).

  The JavaScript string primitives involved (indexOf, substring, split,
  toUpperCase) are modelled with their edge cases: indexOf yields -1 when the
  character is absent, substring clamps and swaps its bounds, and indexing
  element 1 of a split that found no separator yields undefined, on which
  toUpperCase throws.
*/
module DataUrl {
  import opened Wrappers

  /** s.indexOf(c) for a one-character needle: the first index of c in s, or -1. */
  function IndexOf(s: string, c: char): (i: int)
    ensures -1 <= i < |s|
  {
    if |s| == 0 then -1
    else if s[0] == c then 0
    else
      var j := IndexOf(s[1..], c);
      if j < 0 then -1 else j + 1
  }

  /** IndexOf is -1 exactly when c is absent, and otherwise finds c with no earlier c. */
  lemma {:induction false} IndexOfFindsFirst(s: string, c: char)
    ensures var i := IndexOf(s, c);
            && (i == -1 <==> c !in s)
            && (0 <= i ==> s[i] == c && c !in s[..i])
  {
    if |s| > 0 && s[0] != c {
      IndexOfFindsFirst(s[1..], c);
      var j := IndexOf(s[1..], c);
      assert s == [s[0]] + s[1..];
      assert j >= 0 ==> s[..j + 1] == [s[0]] + s[1..][..j];
    }
  }

  /** Any position holding the first occurrence of c is what IndexOf finds. */
  lemma IndexOfFirst(s: string, c: char, k: nat)
    requires k < |s| && s[k] == c && c !in s[..k]
    ensures IndexOf(s, c) == k
  {
    IndexOfFindsFirst(s, c);
  }

  /** An index argument of substring, clamped into [0, n]. */
  function Clamp(i: int, n: nat): (r: nat)
    ensures r <= n
  {
    if i < 0 then 0 else if i > n then n else i
  }

  /** s.substring(start, end): both bounds clamped into s, and swapped when start exceeds end. */
  function Substring(s: string, start: int, end: int): string
  {
    var a, b := Clamp(start, |s|), Clamp(end, |s|);
    if a <= b then s[a..b] else s[b..a]
  }

  /** getImageTypeFromDataURL: the text between the first ':' and the first ';'. */
  function ImageTypeFromDataUrl(dataUrl: string): string
  {
    Substring(dataUrl, IndexOf(dataUrl, ':') + 1, IndexOf(dataUrl, ';'))
  }

  /**
    A URL of the form scheme:mime;rest, whose scheme holds neither ':' nor
    ';' and whose MIME type holds no ';', yields exactly that MIME type.
  */
  lemma ImageTypeOfWellFormedUrl(scheme: string, mimeType: string, rest: string)
    requires ':' !in scheme && ';' !in scheme && ';' !in mimeType
    ensures ImageTypeFromDataUrl(scheme + ":" + mimeType + ";" + rest) == mimeType
  {
    var url := scheme + ":" + mimeType + ";" + rest;
    var colon, semicolon := |scheme|, |scheme| + 1 + |mimeType|;
    assert url[..colon] == scheme;
    IndexOfFirst(url, ':', colon);
    assert url[..semicolon] == scheme + ":" + mimeType;
    IndexOfFirst(url, ';', semicolon);
    assert url[colon + 1..semicolon] == mimeType;
  }

  /** Without a ';' the type is the prefix up to and including the first ':' (substring swaps its bounds). */
  lemma ImageTypeWithoutSemicolon(dataUrl: string)
    requires ':' in dataUrl && ';' !in dataUrl
    ensures ImageTypeFromDataUrl(dataUrl) == dataUrl[..IndexOf(dataUrl, ':') + 1]
  {
    IndexOfFindsFirst(dataUrl, ':');
    IndexOfFindsFirst(dataUrl, ';');
  }

  /** Without a ':' the type is the prefix before the first ';', or empty if there is no ';' either. */
  lemma ImageTypeWithoutColon(dataUrl: string)
    requires ':' !in dataUrl
    ensures 0 <= IndexOf(dataUrl, ';') ==> ImageTypeFromDataUrl(dataUrl) == dataUrl[..IndexOf(dataUrl, ';')]
    ensures ';' !in dataUrl ==> ImageTypeFromDataUrl(dataUrl) == []
  {
    IndexOfFindsFirst(dataUrl, ':');
    IndexOfFindsFirst(dataUrl, ';');
  }

  /** When the first ';' comes before the first ':', the type runs from that ';' through that ':'. */
  lemma ImageTypeWithSemicolonFirst(dataUrl: string)
    requires 0 <= IndexOf(dataUrl, ';') < IndexOf(dataUrl, ':')
    ensures ImageTypeFromDataUrl(dataUrl) == dataUrl[IndexOf(dataUrl, ';')..IndexOf(dataUrl, ':') + 1]
  {
  }

  /** The parts joined back together with sep between consecutive parts. */
  function Join(parts: seq<string>, sep: char): string
    requires |parts| >= 1
  {
    if |parts| == 1 then parts[0] else parts[0] + [sep] + Join(parts[1..], sep)
  }

  /** s.split(sep) for a one-character separator: the runs of s between occurrences of sep, in order. */
  function Split(s: string, sep: char): (parts: seq<string>)
    ensures |parts| >= 1
    decreases |s|
  {
    var i := IndexOf(s, sep);
    if i < 0 then [s] else [s[..i]] + Split(s[i + 1..], sep)
  }

  /** A split that found the separator: the run before it, then the split of what follows it. */
  lemma SplitAtFirst(s: string, sep: char)
    requires sep in s
    ensures var i := IndexOf(s, sep);
            && 0 <= i && s == s[..i] + [sep] + s[i + 1..] && sep !in s[..i]
            && Split(s, sep) == [s[..i]] + Split(s[i + 1..], sep)
  {
  }

  /** A split yields more than one part exactly when the separator occurs. */
  lemma SplitCount(s: string, sep: char)
    ensures |Split(s, sep)| == 1 <==> sep !in s
  {
    IndexOfFindsFirst(s, sep);
  }

  /** No part of a split holds the separator. */
  lemma {:induction false} SplitPartsFree(s: string, sep: char)
    ensures forall k :: 0 <= k < |Split(s, sep)| ==> sep !in Split(s, sep)[k]
    decreases |s|
  {
    if sep in s {
      SplitAtFirst(s, sep);
      var i := IndexOf(s, sep);
      var rest := Split(s[i + 1..], sep);
      SplitPartsFree(s[i + 1..], sep);
      forall k | 0 <= k < |Split(s, sep)|
        ensures sep !in Split(s, sep)[k]
      {
        if k > 0 {
          assert Split(s, sep)[k] == rest[k - 1];
        }
      }
    } else {
      IndexOfFindsFirst(s, sep);
    }
  }

  /** Joining the parts of a split gives the string back. */
  lemma {:induction false} JoinSplit(s: string, sep: char)
    ensures Join(Split(s, sep), sep) == s
    decreases |s|
  {
    if sep in s {
      SplitAtFirst(s, sep);
      var i := IndexOf(s, sep);
      JoinSplit(s[i + 1..], sep);
      JoinCons(s[..i], Split(s[i + 1..], sep), sep);
    } else {
      IndexOfFindsFirst(s, sep);
    }
  }

  /** Joining a part in front of at least one other puts a separator between them. */
  lemma JoinCons(head: string, rest: seq<string>, sep: char)
    requires |rest| >= 1
    ensures Join([head] + rest, sep) == head + [sep] + Join(rest, sep)
  {
  }

  /** Splitting a join of separator-free parts gives the same parts back. */
  lemma {:induction false} SplitJoin(parts: seq<string>, sep: char)
    requires |parts| >= 1
    requires forall k :: 0 <= k < |parts| ==> sep !in parts[k]
    ensures Split(Join(parts, sep), sep) == parts
    decreases |parts|
  {
    if |parts| > 1 {
      var s, i := Join(parts, sep), |parts[0]|;
      assert s == parts[0] + [sep] + Join(parts[1..], sep);
      assert s[..i] == parts[0];
      assert s[i + 1..] == Join(parts[1..], sep);
      IndexOfFirst(s, sep, i);
      assert Split(s, sep) == [parts[0]] + Split(Join(parts[1..], sep), sep);
      SplitJoin(parts[1..], sep);
      assert parts == [parts[0]] + parts[1..];
    } else {
      IndexOfFindsFirst(parts[0], sep);
    }
  }

  /** ASCII upper-casing of one character; every other character is unchanged. */
  function UpperChar(c: char): char
  {
    if 'a' <= c <= 'z' then (c as int - 32) as char else c
  }

  /** s.toUpperCase(), restricted to the ASCII letters. */
  function ToUpperCase(s: string): (r: string)
    ensures |r| == |s|
    ensures forall i :: 0 <= i < |s| ==> r[i] == UpperChar(s[i])
  {
    if |s| == 0 then [] else [UpperChar(s[0])] + ToUpperCase(s[1..])
  }

  /**
    The format name given to the PDF writer: mimeType.split('/')[1],
    upper-cased. None stands for the TypeError JavaScript throws when the
    type has no '/', so that element 1 of the split is undefined.
  */
  function FormatName(mimeType: string): Option<string>
  {
    var parts := Split(mimeType, '/');
    if |parts| < 2 then None else Some(ToUpperCase(parts[1]))
  }

  /** The format name of type/subtype is the upper-cased subtype. */
  lemma FormatNameOfMimeType(mediaType: string, subtype: string)
    requires '/' !in mediaType && '/' !in subtype
    ensures FormatName(mediaType + "/" + subtype) == Some(ToUpperCase(subtype))
  {
    SplitJoin([mediaType, subtype], '/');
    assert Join([mediaType, subtype], '/') == mediaType + "/" + subtype;
  }

  /** The format name is missing exactly when the MIME type holds no '/'. */
  lemma FormatNameMissing(mimeType: string)
    ensures FormatName(mimeType) == None <==> '/' !in mimeType
  {
    SplitCount(mimeType, '/');
  }

  /** The format name read from a well-formed data URL data:type/subtype;rest. */
  lemma FormatNameOfDataUrl(mediaType: string, subtype: string, rest: string)
    requires ';' !in mediaType && '/' !in mediaType
    requires ';' !in subtype && '/' !in subtype
    ensures FormatName(ImageTypeFromDataUrl("data:" + (mediaType + "/" + subtype) + ";" + rest))
            == Some(ToUpperCase(subtype))
  {
    var mimeType := mediaType + "/" + subtype;
    assert ';' !in mimeType;
    var url := "data:" + mimeType + ";" + rest;
    ImageTypeOfWellFormedUrl("data", mimeType, rest);
    assert "data" + ":" == "data:";
    assert url == "data" + ":" + mimeType + ";" + rest;
    assert ImageTypeFromDataUrl(url) == mimeType;
    FormatNameOfMimeType(mediaType, subtype);
  }

  /** A PNG data URL as the browser's FileReader produces it carries the type image/png. */
  lemma ExamplePngType()
    ensures ImageTypeFromDataUrl("data:image/png;base64,iVBORw0KGgo=") == "image/png"
  {
    assert "data:image/png;base64,iVBORw0KGgo=" == "data" + ":" + "image/png" + ";" + "base64,iVBORw0KGgo=";
    ImageTypeOfWellFormedUrl("data", "image/png", "base64,iVBORw0KGgo=");
  }

  /** The PDF writer receives the format name PNG for the type image/png. */
  lemma ExamplePngFormat()
    ensures FormatName("image/png") == Some("PNG")
  {
    assert "image/png" == "image" + "/" + "png";
    FormatNameOfMimeType("image", "png");
    assert ToUpperCase("png") == "PNG";
  }
}
