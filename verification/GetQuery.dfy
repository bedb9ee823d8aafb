/** get_query of http_microhttpd.c: the arguments of a request joined into a fixed buffer. */
module GetQuery {
  import opened Basics
  import opened Bytes
  import opened Explode

  const QUERYMAXLEN := 8192

  /** What slot i adds: nothing if it is null, else "?" or the separator, and the element. */
  function Added(elements: seq<Option<Text>>, i: nat, separator: Text): Text
    requires i < |elements|
  {
    if elements[i].None? then [] else (if i == 0 then ['?'] else separator) + elements[i].value
  }

  /** The exact join of the first n slots. */
  function Join(elements: seq<Option<Text>>, n: nat, separator: Text): Text
    requires n <= |elements|
  {
    if n == 0 then [] else Join(elements, n - 1, separator) + Added(elements, n - 1, separator)
  }

  predicate NullBefore(elements: seq<Option<Text>>, n: nat)
    requires n <= |elements|
  {
    forall i :: 0 <= i < n ==> elements[i].None?
  }

  /** The query fits: the whole join with its NUL, and no separator that could not. */
  predicate Fits(elements: seq<Option<Text>>, separator: Text) {
    || NullBefore(elements, |elements|)
    || (|Join(elements, |elements|, separator)| < QUERYMAXLEN && |separator| < QUERYMAXLEN)
  }

  lemma {:induction false} JoinGrows(elements: seq<Option<Text>>, i: nat, n: nat, separator: Text)
    requires i <= n <= |elements|
    ensures Join(elements, i, separator) <= Join(elements, n, separator)
    decreases n - i
  {
    hide Added;
    if i < n {
      JoinGrows(elements, i, n - 1, separator);
    }
  }

  /** An element that cannot be added makes the whole join too long. */
  lemma TooLong(elements: seq<Option<Text>>, i: nat, separator: Text)
    requires i < |elements| && elements[i].Some?
    requires |separator| >= QUERYMAXLEN || |elements[i].value| >= QUERYMAXLEN
             || |Join(elements, i, separator)| + |Added(elements, i, separator)| > QUERYMAXLEN - 1
    ensures !Fits(elements, separator)
  {
    JoinGrows(elements, i + 1, |elements|, separator);
  }

  /** `memcpy(out + used, text, |text|)` */
  method Append(out: array<Byte>, used: nat, text: Text, ghost before: Text, ghost joined: Text)
    requires used == |joined| && |joined| + |text| <= out.Length == |before| && out[..] == Filled(before, joined)
    modifies out
    ensures out[..] == Filled(before, joined + text)
  {
    hide Filled;
    assert joined + text[..0] == joined;
    for k := 0 to |text|
      invariant out[..] == Filled(before, joined + text[..k])
    {
      Put(out, used + k, text[k], before, joined + text[..k]);
      assert joined + text[..k] + [text[k]] == joined + text[..k + 1];
    }
    assert text[..|text|] == text;
  }

  lemma Refill(s: Text, joined: Text)
    requires joined <= s
    ensures Filled(s, joined) == s
  {
  }

  /** One slot that has room: the prefix, the element and the NUL. */
  method AddElement(out: array<Byte>, used: nat, elements: seq<Option<Text>>, i: nat, separator: Text,
                    ghost joined: Text)
    returns (used': nat)
    requires out.Length == QUERYMAXLEN && i < |elements| && elements[i].Some?
    requires used == |joined| && joined <= out[..]
    requires used + |Added(elements, i, separator)| <= QUERYMAXLEN - 1
    modifies out
    ensures used' == used + |Added(elements, i, separator)|
    ensures joined + Added(elements, i, separator) + [NUL] <= out[..]
  {
    hide Filled;
    ghost var before := out[..];
    Refill(before, joined);
    var element := elements[i].value;
    var prefix := if i == 0 then ['?'] else separator;
    Append(out, used, prefix, before, joined);
    used' := used + |prefix|;
    Append(out, used', element, before, joined + prefix);
    used' := used' + |element|;
    assert joined + prefix + element == joined + Added(elements, i, separator);
    Put(out, used', NUL, before, joined + Added(elements, i, separator));
    FilledStarts(before, joined + Added(elements, i, separator) + [NUL]);
  }

  lemma FilledStarts(before: Text, out: Text)
    ensures out <= Filled(before, out)
  {
  }

  /** `get_query`, once the slots have been collected: the buffer holds the whole join or the empty string. The
      sizes the test adds stay below twice the buffer size, so they cannot wrap. */
  method GetQuery(query: array?<Byte>, elements: seq<Option<Text>>, separator: Text)
    requires query != null ==> query.Length == QUERYMAXLEN
    requires NUL !in separator && forall i :: 0 <= i < |elements| && elements[i].Some? ==> NUL !in elements[i].value
    modifies query
    ensures query != null ==>
              UpToNul(query[..]) == if Fits(elements, separator) then Join(elements, |elements|, separator) else []
  {
    if query == null {
      return;
    }
    hide Fits, Added, UpToNul, NullBefore, Join;
    var out := query;
    out[0] := NUL;
    var used, tooLong := 0, false;
    ghost var joined: Text := [];
    JoinStarts(elements, separator);
    for i := 0 to |elements|
      invariant !tooLong && used == |joined| < QUERYMAXLEN
      invariant joined == Join(elements, i, separator) && joined + [NUL] <= out[..]
      invariant NullBefore(elements, i) || |separator| < QUERYMAXLEN
    {
      if elements[i].None? {
        AddedNothing(elements, i, separator);
        continue;
      }
      AddedLength(elements, i, separator);
      var elementLen, separatorLen := |elements[i].value|, |separator|;
      if elementLen >= QUERYMAXLEN || separatorLen >= QUERYMAXLEN {
        TooLong(elements, i, separator);
        tooLong := true;
        break;
      }
      var need := if i == 0 then 1 + elementLen else separatorLen + elementLen;
      assert need < 2 * QUERYMAXLEN;
      var room := (QUERYMAXLEN - 1) - used;
      if need > room {
        TooLong(elements, i, separator);
        tooLong := true;
        break;
      }
      used := AddElement(out, used, elements, i, separator, joined);
      JoinNext(elements, i, separator);
      joined := joined + Added(elements, i, separator);
    }
    if tooLong {
      out[0] := NUL;
      TextThenNul(out[..], []);
    } else {
      JoinFits(elements, separator);
      JoinIsCString(elements, |elements|, separator);
      TextThenNul(out[..], joined);
    }
  }

  lemma JoinStarts(elements: seq<Option<Text>>, separator: Text)
    ensures Join(elements, 0, separator) == [] && NullBefore(elements, 0)
  {
  }

  lemma JoinNext(elements: seq<Option<Text>>, i: nat, separator: Text)
    requires i < |elements|
    ensures Join(elements, i + 1, separator) == Join(elements, i, separator) + Added(elements, i, separator)
  {
  }

  lemma AddedLength(elements: seq<Option<Text>>, i: nat, separator: Text)
    requires i < |elements| && elements[i].Some?
    ensures |Added(elements, i, separator)| == (if i == 0 then 1 else |separator|) + |elements[i].value|
  {
  }

  lemma AddedNothing(elements: seq<Option<Text>>, i: nat, separator: Text)
    requires i < |elements| && elements[i].None?
    ensures Join(elements, i + 1, separator) == Join(elements, i, separator)
    ensures NullBefore(elements, i) ==> NullBefore(elements, i + 1)
  {
  }

  lemma JoinFits(elements: seq<Option<Text>>, separator: Text)
    requires |Join(elements, |elements|, separator)| < QUERYMAXLEN
    requires NullBefore(elements, |elements|) || |separator| < QUERYMAXLEN
    ensures Fits(elements, separator)
  {
  }

  lemma TextThenNul(s: Text, text: Text)
    requires NUL !in text && text + [NUL] <= s
    ensures UpToNul(s) == text
  {
    assert s == text + [NUL] + s[|text| + 1..];
    UpToNulOf(text, s[|text| + 1..]);
  }

  lemma {:induction false} JoinIsCString(elements: seq<Option<Text>>, n: nat, separator: Text)
    requires n <= |elements| && NUL !in separator
    requires forall i :: 0 <= i < |elements| && elements[i].Some? ==> NUL !in elements[i].value
    ensures NUL !in Join(elements, n, separator)
  {
    hide Added;
    if n > 0 {
      JoinIsCString(elements, n - 1, separator);
      AddedIsCString(elements, n - 1, separator);
    }
  }

  lemma AddedIsCString(elements: seq<Option<Text>>, i: nat, separator: Text)
    requires i < |elements| && NUL !in separator && (elements[i].Some? ==> NUL !in elements[i].value)
    ensures NUL !in Added(elements, i, separator)
  {
  }

  /** The elements of the first n slots that are not null. */
  function Values(elements: seq<Option<Text>>, n: nat): seq<Text>
    requires n <= |elements|
  {
    if n == 0 then []
    else Values(elements, n - 1) + if elements[n - 1].Some? then [elements[n - 1].value] else []
  }

  /** The join without its question mark, which it has only when the first slot is not null. */
  function Body(elements: seq<Option<Text>>, n: nat, separator: Text): Text
    requires 0 < n <= |elements|
  {
    var j := Join(elements, n, separator);
    if elements[0].Some? && j != [] then j[1..] else j
  }

  lemma FirstSlot(elements: seq<Option<Text>>, separator: Text)
    requires |elements| > 0
    ensures elements[0].Some? ==> ['?'] <= Join(elements, 1, separator)
    ensures Body(elements, 1, separator) == if elements[0].Some? then elements[0].value else []
    ensures Values(elements, 1) == if elements[0].Some? then [elements[0].value] else []
  {
    assert Join(elements, 1, separator) == Join(elements, 0, separator) + Added(elements, 0, separator);
    assert Values(elements, 1) == Values(elements, 0) + if elements[0].Some? then [elements[0].value] else [];
  }

  lemma NextSlot(elements: seq<Option<Text>>, n: nat, separator: Text)
    requires 1 < n <= |elements|
    requires elements[0].Some? ==> ['?'] <= Join(elements, n - 1, separator)
    ensures elements[0].Some? ==> ['?'] <= Join(elements, n, separator)
    ensures Body(elements, n, separator)
            == Body(elements, n - 1, separator)
               + if elements[n - 1].Some? then separator + elements[n - 1].value else []
  {
  }

  /** The elements can be read back by splitting: nothing is lost or made up, as long as no element contains the
      separator. Null slots leave no trace, except that behind a null first slot the join starts with a separator,
      and so with an empty piece, instead of a question mark. */
  lemma {:induction false} JoinSplits(elements: seq<Option<Text>>, n: nat, separator: Text)
    requires 0 < n <= |elements| && Borderless(separator)
    requires forall i :: 0 <= i < n && elements[i].Some? ==> !Has(separator, elements[i].value)
    ensures elements[0].Some? ==> ['?'] <= Join(elements, n, separator)
    ensures Split(separator, Body(elements, n, separator))
            == (if elements[0].Some? then [] else [[]]) + Values(elements, n)
  {
    hide Split, Has, Join, Body;
    if n == 1 {
      FirstSlot(elements, separator);
      SplitOnce(separator, if elements[0].Some? then elements[0].value else []);
      NothingToSplit(separator);
    } else {
      JoinSplits(elements, n - 1, separator);
      NextSlot(elements, n, separator);
      if elements[n - 1].Some? {
        SplitOnce(separator, elements[n - 1].value);
        SplitConcat(separator, Body(elements, n - 1, separator), elements[n - 1].value);
        assert Body(elements, n - 1, separator) + separator + elements[n - 1].value
               == Body(elements, n - 1, separator) + (separator + elements[n - 1].value);
      } else {
        assert Body(elements, n - 1, separator) + [] == Body(elements, n - 1, separator);
      }
    }
  }

  lemma NothingToSplit(separator: Text)
    requires separator != []
    ensures Split(separator, []) == [[]]
  {
  }

  /** In numbers: without elements anything fits; else the join may have 8191 characters, and the separator too. */
  lemma FitsExact(elements: seq<Option<Text>>, separator: Text)
    ensures Fits(elements, separator)
            <==> (forall i :: 0 <= i < |elements| ==> elements[i].None?)
                 || (|Join(elements, |elements|, separator)| <= 8191 && |separator| <= 8191)
  {
  }
}
