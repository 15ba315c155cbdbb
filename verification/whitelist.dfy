/** The options page's whitelist editor: the text typed into the input is
    parsed into a list of domains on submit, and a stored list is rendered
    back into the input on load. */
module Whitelist {
  import opened Strings

  /** A domain as the parser can produce it: non-empty, without white space
      at either end, and without a comma. */
  predicate IsDomainEntry(d: string) {
    |d| > 0 && IsTrimmed(d) && ',' !in d
  }

  /** `.map(domain => domain.trim())` */
  function TrimEach(tokens: seq<string>): (trimmed: seq<string>)
    ensures |trimmed| == |tokens|
    decreases |tokens|
  {
    if |tokens| == 0 then [] else [Trim(tokens[0])] + TrimEach(tokens[1..])
  }

  lemma {:induction false} TrimEachAt(tokens: seq<string>, k: nat)
    requires k < |tokens|
    ensures TrimEach(tokens)[k] == Trim(tokens[k])
    decreases k
  {
    if k > 0 {
      TrimEachAt(tokens[1..], k - 1);
    }
  }

  lemma {:induction false} TrimEachAppend(a: seq<string>, b: seq<string>)
    ensures TrimEach(a + b) == TrimEach(a) + TrimEach(b)
    decreases |a|
  {
    if |a| > 0 {
      assert (a + b)[1..] == a[1..] + b;
      TrimEachAppend(a[1..], b);
    } else {
      assert a + b == b;
    }
  }

  /** `.filter(domain => domain.length > 0)`: keeps the non-empty strings
      in their original order, duplicates included. */
  function DropEmpty(tokens: seq<string>): (kept: seq<string>)
    ensures |kept| <= |tokens|
    ensures forall k :: 0 <= k < |kept| ==> |kept[k]| > 0
    ensures forall d :: d in kept ==> d in tokens
    decreases |tokens|
  {
    if |tokens| == 0 then []
    else if |tokens[0]| > 0 then [tokens[0]] + DropEmpty(tokens[1..])
    else DropEmpty(tokens[1..])
  }

  /** Trimming comma-free tokens gives trimmed, comma-free strings. */
  lemma {:induction false} TrimEachEntries(tokens: seq<string>)
    requires forall k :: 0 <= k < |tokens| ==> ',' !in tokens[k]
    ensures forall k :: 0 <= k < |tokens| ==>
      IsTrimmed(TrimEach(tokens)[k]) && ',' !in TrimEach(tokens)[k]
  {
    forall k | 0 <= k < |tokens|
      ensures IsTrimmed(TrimEach(tokens)[k]) && ',' !in TrimEach(tokens)[k]
    {
      TrimEachAt(tokens, k);
      TrimIsTrimmed(tokens[k]);
      if ',' in Trim(tokens[k]) {
        TrimChars(tokens[k], ',');
      }
    }
  }

  /** The submit handler's parse of the whitelist input: split on every
      comma, trim each piece, drop the empty pieces. */
  function ParseWhitelist(input: string): (domains: seq<string>)
    ensures forall k :: 0 <= k < |domains| ==> IsDomainEntry(domains[k])
    ensures |domains| <= Count(input, ',') + 1
  {
    var tokens := Split(input, ',');
    var trimmed := TrimEach(tokens);
    TrimEachEntries(tokens);
    var kept := DropEmpty(trimmed);
    assert forall k :: 0 <= k < |kept| ==> IsDomainEntry(kept[k]) by {
      forall k | 0 <= k < |kept| ensures IsDomainEntry(kept[k]) {
        assert kept[k] in trimmed;
      }
    }
    kept
  }

  /** The load handler's rendering of a stored list: `join(', ')`. */
  function RenderWhitelist(domains: seq<string>): string {
    Join(domains, ", ")
  }

  /** What `chrome.storage.sync.get` hands back for the `whitelist` key. */
  datatype Stored = Absent | NotAList | List(items: seq<string>)

  /** The input's text after the load handler ran: a stored list replaces
      it with the rendered list, anything else leaves it untouched. When
      the stored list came from the parser, parsing the new text gives that
      list back. */
  function LoadInput(stored: Stored, current: string): (text: string)
    ensures !stored.List? ==> text == current
    ensures stored.List? && (forall k :: 0 <= k < |stored.items| ==> IsDomainEntry(stored.items[k]))
      ==> ParseWhitelist(text) == stored.items
  {
    match stored
    case List(items) =>
      LoadRoundTrip(items);
      RenderWhitelist(items)
    case _ => current
  }

  /** The round trip of a loaded list, for any stored list: it holds
      whenever every entry is one the parser could have produced. */
  lemma {:induction false} LoadRoundTrip(items: seq<string>)
    ensures (forall k :: 0 <= k < |items| ==> IsDomainEntry(items[k])) ==>
      ParseWhitelist(RenderWhitelist(items)) == items
  {
    if forall k :: 0 <= k < |items| ==> IsDomainEntry(items[k]) {
      RoundTrip(items);
    }
  }

  /** `filter` distributes over concatenation. */
  lemma {:induction false} DropEmptyAppend(a: seq<string>, b: seq<string>)
    ensures DropEmpty(a + b) == DropEmpty(a) + DropEmpty(b)
    decreases |a|
  {
    if |a| > 0 {
      assert (a + b)[1..] == a[1..] + b;
      DropEmptyAppend(a[1..], b);
    } else {
      assert a + b == b;
    }
  }

  /** Parsing distributes over a comma: the domains of `a,b` are the
      domains of `a` followed by the domains of `b`, so order is kept and
      nothing is merged or removed across the comma. */
  lemma {:induction false} ParseAppend(a: string, b: string)
    ensures ParseWhitelist(a + [','] + b) == ParseWhitelist(a) + ParseWhitelist(b)
  {
    SplitAppend(a, b, ',');
    var ta := Split(a, ',');
    var tb := Split(b, ',');
    TrimEachAppend(ta, tb);
    DropEmptyAppend(TrimEach(ta), TrimEach(tb));
  }

  /** A comma-free input is one token: it yields its trimmed text, or
      nothing when that is empty. */
  lemma {:induction false} ParseSingle(t: string)
    requires ',' !in t
    ensures ParseWhitelist(t) == if Trim(t) == [] then [] else [Trim(t)]
  {
    SplitNoSeparator(t, ',');
    assert TrimEach([t]) == [Trim(t)] by {
      assert [t][1..] == [];
    }
  }

  /** The input holds nothing but commas and white space. */
  predicate OnlySeparators(s: string) {
    forall k :: 0 <= k < |s| ==> s[k] == ',' || IsSpace(s[k])
  }

  lemma {:induction false} OnlySeparatorsAppend(a: string, b: string)
    ensures OnlySeparators(a + [','] + b) <==> OnlySeparators(a) && OnlySeparators(b)
  {
    var s := a + [','] + b;
    assert forall k :: 0 <= k < |a| ==> a[k] == s[k];
    assert forall k :: 0 <= k < |b| ==> b[k] == s[|a| + 1 + k];
    if OnlySeparators(a) && OnlySeparators(b) {
      forall k | 0 <= k < |s| ensures s[k] == ',' || IsSpace(s[k]) {
        if k > |a| { assert s[k] == b[k - |a| - 1]; }
      }
    }
  }

  /** Parsing yields no domains exactly when the input is made of commas
      and white space only (the empty input included). */
  lemma {:induction false} ParseEmptyIff(s: string)
    ensures ParseWhitelist(s) == [] <==> OnlySeparators(s)
    decreases |s|
  {
    if ',' in s {
      var i :| 0 <= i < |s| && s[i] == ',';
      var a, b := s[..i], s[i + 1..];
      assert s == a + [','] + b;
      ParseAppend(a, b);
      OnlySeparatorsAppend(a, b);
      ParseEmptyIff(a);
      ParseEmptyIff(b);
    } else {
      ParseSingle(s);
      TrimEmptyIff(s);
      assert OnlySeparators(s) <==> AllSpace(s);
    }
  }

  /** A white-space character in front of the input does not change the
      parse. */
  lemma {:induction false} ParseLeadingSpace(c: char, s: string)
    requires IsSpace(c)
    ensures ParseWhitelist([c] + s) == ParseWhitelist(s)
  {
  }

  /** The empty input has no domains. */
  lemma {:induction false} ParseEmpty()
    ensures ParseWhitelist([]) == []
  {
    ParseSingle([]);
    TrimEmptyIff([]);
  }

  /** `join(', ')` puts a comma and a space between the first domain and
      the rendering of the rest. */
  lemma {:induction false} RenderCons(d: string, rest: seq<string>)
    requires |rest| > 0
    ensures RenderWhitelist([d] + rest) == d + [','] + ([' '] + RenderWhitelist(rest))
  {
    assert ([d] + rest)[1..] == rest;
  }

  /** Rendering then parsing gives back any list the parser could have
      produced: the two handlers are inverse on well-formed lists. The
      parse has as many domains as the list, and the same domain at every
      position. */
  lemma {:induction false} RoundTrip(domains: seq<string>)
    requires forall k :: 0 <= k < |domains| ==> IsDomainEntry(domains[k])
    ensures var parsed := ParseWhitelist(RenderWhitelist(domains));
      |parsed| == |domains| && forall k :: 0 <= k < |domains| ==> parsed[k] == domains[k]
    decreases |domains|
  {
    if |domains| == 0 {
      ParseEmpty();
    } else {
      var d := domains[0];
      var rest := domains[1..];
      assert domains == [d] + rest;
      ParseSingle(d);
      TrimTrimmed(d);
      if |rest| > 0 {
        var tail := RenderWhitelist(rest);
        RenderCons(d, rest);
        assert ParseWhitelist([' '] + tail) == rest by {
          ParseLeadingSpace(' ', tail);
          RoundTrip(rest);
          assert ParseWhitelist(tail) == rest;
        }
        ParseAppend(d, [' '] + tail);
      }
    }
  }

  /** Re-rendering and re-parsing a parsed list changes nothing. */
  lemma {:induction false} ParseRenderParse(s: string)
    ensures ParseWhitelist(RenderWhitelist(ParseWhitelist(s))) == ParseWhitelist(s)
  {
    RoundTrip(ParseWhitelist(s));
  }

  /** The same domain twice is kept twice. */
  lemma {:induction false} ParseKeepsDuplicates(d: string)
    requires IsDomainEntry(d)
    ensures ParseWhitelist(d + [','] + d) == [d, d]
  {
    ParseAppend(d, d);
    ParseSingle(d);
    TrimTrimmed(d);
  }

  /** A lone space parses to nothing. */
  lemma {:induction false} ParseSpace()
    ensures ParseWhitelist([' ']) == []
  {
    TrimEmptyIff([' ']);
    ParseSingle([' ']);
  }

  /** A well-formed domain parses to itself. */
  lemma {:induction false} ParseEntry(d: string)
    requires IsDomainEntry(d)
    ensures ParseWhitelist(d) == [d]
  {
    TrimTrimmed(d);
    ParseSingle(d);
  }

  /** A well-formed domain with a space on either side parses to itself. */
  lemma {:induction false} ParsePadded(d: string)
    requires IsDomainEntry(d)
    ensures ParseWhitelist([' '] + d + [' ']) == [d]
  {
    var p := [' '] + d + [' '];
    assert p[1..1 + |d|] == d;
    assert IsCore(p, 1, 1 + |d|) by {
      assert p[..1] == [' '] && p[1 + |d|..] == [' '];
    }
    TrimUnique(p, 1, 1 + |d|);
    ParseSingle(p);
  }

  /** Saving `" a, , b ,a"` for any two domains `a` and `b` (say `a.com`
      and `b.com`) stores `a`, `b`, `a`: white space is trimmed, the blank
      entry dropped, order and the duplicate kept. */
  lemma {:induction false} SaveExample(a: string, b: string)
    requires IsDomainEntry(a) && IsDomainEntry(b)
    ensures ParseWhitelist([' '] + a + [',', ' ', ','] + [' '] + b + [' ', ','] + a) == [a, b, a]
  {
    var p1, p2, p3 := [' '] + a, [' '], [' '] + b + [' '];
    var q3 := p3 + [','] + a;
    var q2 := p2 + [','] + q3;
    var q1 := p1 + [','] + q2;
    ExampleText(a, b);
    assert ParseWhitelist(q3) == [b, a] by {
      ParseAppend(p3, a);
      ParsePadded(b);
      ParseEntry(a);
    }
    assert ParseWhitelist(q2) == [b, a] by {
      ParseAppend(p2, q3);
      ParseSpace();
    }
    ParseAppend(p1, q2);
    ParseLeadingSpace(' ', a);
    ParseEntry(a);
  }

  /** The example input grouped at its commas. */
  lemma {:induction false} ExampleText(a: string, b: string)
    ensures [' '] + a + [',', ' ', ','] + [' '] + b + [' ', ','] + a
      == ([' '] + a) + [','] + ([' '] + [','] + (([' '] + b + [' ']) + [','] + a))
  {
  }
}
