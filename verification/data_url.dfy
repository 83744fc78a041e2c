/** The handler's data-URL prefix strip: `imageData.includes(',') ?
    imageData.split(',')[1] : imageData`. */
module DataUrl {

  /** `String.prototype.split(sep)` for a one-character separator and no
      limit: the maximal separator-free pieces, in order. */
  function Split(s: string, sep: char): (parts: seq<string>)
    ensures |parts| >= 1
    ensures sep in s ==> |parts| >= 2
    decreases |s|
  {
    if |s| == 0 then [""]
    else
      var rest := Split(s[1..], sep);
      assert s == [s[0]] + s[1..];
      if s[0] == sep then [""] + rest
      else [[s[0]] + rest[0]] + rest[1..]
  }

  /** `Array.prototype.join(sep)`, the inverse of `Split`. */
  function Join(parts: seq<string>, sep: char): string
    requires |parts| >= 1
    decreases |parts|
  {
    if |parts| == 1 then parts[0] else parts[0] + [sep] + Join(parts[1..], sep)
  }

  /** Position of the first occurrence of `c` in `s`. */
  function FirstIndex(s: string, c: char): (i: nat)
    requires c in s
    ensures i < |s| && s[i] == c && c !in s[..i]
  {
    if s[0] == c then 0
    else
      assert c in s[1..] by { assert s == [s[0]] + s[1..]; }
      var j := FirstIndex(s[1..], c);
      assert s[..j + 1] == [s[0]] + s[1..][..j];
      1 + j
  }

  /** The data-URL strip as the handler writes it. It keeps exactly the
      text between the first comma and the next comma (or the end); input
      without a comma passes through unchanged. */
  function StripPrefix(imageData: string): (r: string)
    ensures ',' !in imageData ==> r == imageData
    ensures ',' in imageData ==>
      var tail := imageData[FirstIndex(imageData, ',') + 1..];
      r <= tail && ',' !in r && (|r| == |tail| || tail[|r|] == ',')
  {
    if ',' in imageData then
      SplitAtFirst(imageData, ',');
      SplitHead(imageData[FirstIndex(imageData, ',') + 1..], ',');
      Split(imageData, ',')[1]
    else imageData
  }

  /** How `Split` treats a leading character. */
  lemma SplitCons(c: char, t: string, sep: char)
    ensures Split([c] + t, sep) ==
      if c == sep then [""] + Split(t, sep)
      else [[c] + Split(t, sep)[0]] + Split(t, sep)[1..]
  {
    assert ([c] + t)[1..] == t;
  }

  /** Splitting yields separator-free pieces. */
  lemma {:induction false} SplitPiecesSepFree(s: string, sep: char)
    ensures forall k :: 0 <= k < |Split(s, sep)| ==> sep !in Split(s, sep)[k]
    decreases |s|
  {
    if |s| > 0 {
      SplitPiecesSepFree(s[1..], sep);
    }
  }

  /** Splitting and joining again gives back the input. */
  lemma {:induction false} SplitJoin(s: string, sep: char)
    ensures Join(Split(s, sep), sep) == s
    decreases |s|
  {
    if |s| > 0 {
      var t := s[1..];
      assert s == [s[0]] + t;
      SplitCons(s[0], t, sep);
      SplitJoin(t, sep);
      var rest := Split(t, sep);
      var parts := Split(s, sep);
      if s[0] == sep {
        assert parts[1..] == rest;
      } else {
        assert parts[1..] == rest[1..];
        if |rest| > 1 {
          calc {
            Join(parts, sep);
            ([s[0]] + rest[0]) + [sep] + Join(rest[1..], sep);
            [s[0]] + (rest[0] + [sep] + Join(rest[1..], sep));
          }
        }
      }
    }
  }

  /** Joining separator-free pieces and splitting again gives them back. */
  lemma {:induction false} JoinSplit(parts: seq<string>, sep: char)
    requires |parts| >= 1
    requires forall k :: 0 <= k < |parts| ==> sep !in parts[k]
    ensures Split(Join(parts, sep), sep) == parts
    decreases |parts|, |parts[0]|
  {
    var p := parts[0];
    if |parts| == 1 {
      NoSepSplit(p, sep);
    } else if |p| == 0 {
      JoinSplit(parts[1..], sep);
      var t := Join(parts[1..], sep);
      assert Join(parts, sep) == [sep] + t;
      SplitCons(sep, t, sep);
      assert parts == [""] + parts[1..];
    } else {
      var shorter := [p[1..]] + parts[1..];
      assert shorter[1..] == parts[1..];
      JoinSplit(shorter, sep);
      var t := Join(shorter, sep);
      assert p == [p[0]] + p[1..];
      assert Join(parts, sep) == [p[0]] + t;
      assert p[0] != sep by { assert p[0] in p; }
      SplitCons(p[0], t, sep);
      assert parts == [[p[0]] + shorter[0]] + shorter[1..];
    }
  }

  /** A separator-free string splits into itself alone. */
  lemma {:induction false} NoSepSplit(s: string, sep: char)
    requires sep !in s
    ensures Split(s, sep) == [s]
    decreases |s|
  {
    if |s| > 0 {
      assert s == [s[0]] + s[1..];
      NoSepSplit(s[1..], sep);
    }
  }

  /** The first piece is everything before the first separator; the remaining
      pieces are the split of everything after it. */
  lemma {:induction false} SplitAtFirst(s: string, sep: char)
    requires sep in s
    ensures Split(s, sep) == [s[..FirstIndex(s, sep)]] + Split(s[FirstIndex(s, sep) + 1..], sep)
    decreases |s|
  {
    if s[0] != sep {
      assert sep in s[1..] by { assert s == [s[0]] + s[1..]; }
      SplitAtFirst(s[1..], sep);
      var i := FirstIndex(s[1..], sep);
      assert FirstIndex(s, sep) == i + 1;
      assert s[1..][i + 1..] == s[i + 2..];
      assert s[..i + 1] == [s[0]] + s[1..][..i];
    }
  }

  /** The first piece of a split runs up to the first separator or the end. */
  lemma {:induction false} SplitHead(s: string, sep: char)
    ensures Split(s, sep)[0] <= s
    ensures sep !in Split(s, sep)[0]
    ensures |Split(s, sep)[0]| == |s| || s[|Split(s, sep)[0]|] == sep
  {
    if sep in s {
      SplitAtFirst(s, sep);
    } else {
      NoSepSplit(s, sep);
    }
  }

  /** The stripped payload never holds a comma, so stripping twice is the
      same as stripping once. */
  lemma StripPrefixIdempotent(imageData: string)
    ensures ',' !in StripPrefix(imageData)
    ensures StripPrefix(StripPrefix(imageData)) == StripPrefix(imageData)
  {
  }

  /** A data URL `data:<media type>;base64,<payload>` with a comma-free media
      type and base64 payload strips to its payload; in particular
      `data:...;base64,` with nothing after the comma strips to the empty
      string. */
  lemma StripDataUrl(mediaType: string, payload: string)
    requires ',' !in mediaType && ',' !in payload
    ensures StripPrefix("data:" + mediaType + ";base64," + payload) == payload
  {
    var header := "data:" + mediaType + ";base64";
    var s := header + "," + payload;
    assert "data:" + mediaType + ";base64," + payload == s;
    assert ',' !in header by {
      assert forall k :: 0 <= k < |header| ==> header[k] != ',' by {
        forall k | 0 <= k < |header| ensures header[k] != ',' {
          if 5 <= k < 5 + |mediaType| {
            assert header[k] == mediaType[k - 5];
          }
        }
      }
    }
    JoinSplit([header, payload], ',');
    assert Join([header, payload], ',') == s;
  }
}
