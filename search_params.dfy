/**
 * `new URLSearchParams(init).get(name)` for a string `init`, as the WHATWG URL Standard
 * defines it: a leading "?" is dropped, the input is split at "&", empty pieces are
 * skipped, each piece is split at its first "=" into a name and a value (the value is
 * empty when there is no "="), "+" becomes a space and the result is percent-decoded.
 * `get` returns the value of the first entry with that name. Percent-decoding (with the
 * UTF-8 decoding that follows it) is a parameter.
 */
module SearchParams {
  import opened Wrappers
  import opened Strings

  datatype Entry = Entry(name: string, value: string)

  predicate NoPercent(s: string) {
    forall i :: 0 <= i < |s| ==> s[i] != '%'
  }

  /** One non-empty piece of the input. */
  function ParseEntry(percentDecode: string -> string, piece: string): Entry {
    var i := IndexOf(piece, '=');
    var name := piece[..i];
    var value := if i < |piece| then piece[i + 1..] else "";
    Entry(percentDecode(Replace(name, '+', ' ')), percentDecode(Replace(value, '+', ' ')))
  }

  function ParseEntries(percentDecode: string -> string, pieces: seq<string>): seq<Entry>
    decreases |pieces|
  {
    if pieces == [] then []
    else
      (if pieces[0] == "" then [] else [ParseEntry(percentDecode, pieces[0])])
      + ParseEntries(percentDecode, pieces[1..])
  }

  /** The entry list of `new URLSearchParams(init)`. */
  function Parse(percentDecode: string -> string, init: string): seq<Entry> {
    var input := if |init| > 0 && init[0] == '?' then init[1..] else init;
    ParseEntries(percentDecode, Split(input, '&'))
  }

  /** `get(name)`: the value of the first entry named `name`, `None` for JavaScript's `null`. */
  function Get(entries: seq<Entry>, name: string): (r: Option<string>)
    ensures r.None? <==> forall k :: 0 <= k < |entries| ==> entries[k].name != name
    ensures r.Some? ==> exists k :: 0 <= k < |entries| && entries[k] == Entry(name, r.value)
                          && forall j :: 0 <= j < k ==> entries[j].name != name
    decreases |entries|
  {
    if entries == [] then None
    else if entries[0].name == name then Some(entries[0].value)
    else
      var r := Get(entries[1..], name);
      assert r.Some? ==> exists k :: 0 <= k < |entries| && entries[k] == Entry(name, r.value)
                          && forall j :: 0 <= j < k ==> entries[j].name != name by {
        if r.Some? {
          var k :| 0 <= k < |entries[1..]| && entries[1..][k] == Entry(name, r.value)
                   && forall j :: 0 <= j < k ==> entries[1..][j].name != name;
          assert entries[k + 1] == Entry(name, r.value);
          forall j | 0 <= j < k + 1 ensures entries[j].name != name {
            if j > 0 {
              assert entries[j] == entries[1..][j - 1];
            }
          }
        }
      }
      r
  }

  lemma IndexOfPrefix(a: string, rest: string, c: char)
    requires forall i :: 0 <= i < |a| ==> a[i] != c
    requires rest == "" || rest[0] == c
    ensures IndexOf(a + rest, c) == |a|
    decreases |a|
  {
    if a != [] {
      assert (a + rest)[1..] == a[1..] + rest;
      IndexOfPrefix(a[1..], rest, c);
    } else {
      assert a + rest == rest;
    }
  }

  /** When the input starts with `md=` followed by a value free of "&", "+" and "%", and
      what follows (if anything) starts a new entry, `get("md")` returns that value
      unchanged: later entries are ignored. */
  lemma GetLeadingEntry(percentDecode: string -> string, v: string, rest: string)
    requires forall i :: 0 <= i < |v| ==> v[i] != '&' && v[i] != '+'
    requires percentDecode("md") == "md" && percentDecode(v) == v
    requires rest == "" || rest[0] == '&'
    ensures Get(Parse(percentDecode, "md=" + v + rest), "md") == Some(v)
  {
    var piece := "md=" + v;
    var input := piece + rest;
    assert input[0] == 'm';
    forall i | 0 <= i < |piece| ensures piece[i] != '&' {
      if i >= 3 {
        assert piece[i] == v[i - 3];
      }
    }
    IndexOfPrefix(piece, rest, '&');
    assert Split(input, '&')[0] == piece;
    assert piece == "md" + ("=" + v);
    IndexOfPrefix("md", "=" + v, '=');
    assert piece[..2] == "md";
    assert piece[3..] == v;
    assert Replace("md", '+', ' ') == "md";
    assert Replace(v, '+', ' ') == v;
    assert ParseEntry(percentDecode, piece) == Entry("md", v);
  }
}
