/** The synchronous parts of the `GM_fetch` response: the `ok` flag computed
    from the status code, and `parseHeaders`, which turns the raw header
    block of the cross-origin request into a case-insensitive lookup. */
module Http {
  import opened Wrappers
  import opened Text
  import opened Decimal

  /** `ok: status.toString().startsWith("2")`. */
  function Ok(status: int): bool {
    StartsWith(IntToString(status), "2")
  }

  /** The most significant decimal digit of `n`. */
  function LeadingDigit(n: nat): (d: nat)
    ensures d < 10
  {
    if n < 10 then n else LeadingDigit(n / 10)
  }

  lemma {:induction false} NatToStringLeading(n: nat)
    ensures NatToString(n)[0] == DigitChar(LeadingDigit(n))
    decreases n
  {
    if n >= 10 {
      NatToStringLeading(n / 10);
    }
  }

  /** `ok` holds exactly for a non-negative status whose leading decimal
      digit is 2. */
  lemma OkIffLeadingTwo(status: int)
    ensures Ok(status) <==> status >= 0 && LeadingDigit(status) == 2
  {
    if status >= 0 {
      NatToStringLeading(status);
      assert DigitChar(2) == '2';
      assert IntToString(status)[0] == DigitChar(LeadingDigit(status));
      assert StartsWith(IntToString(status), "2") <==> IntToString(status)[0] == '2';
    } else {
      assert IntToString(status)[0] == '-';
    }
  }

  /** Among three-digit HTTP status codes 100-599, `ok` is exactly the 2xx
      class. */
  lemma OkStatusClass(status: int)
    requires 100 <= status <= 599
    ensures Ok(status) <==> 200 <= status <= 299
  {
    OkIffLeadingTwo(status);
    assert LeadingDigit(status) == LeadingDigit(status / 10) == LeadingDigit(status / 100);
    assert LeadingDigit(status) == status / 100;
  }

  /** The lines `parseHeaders` iterates over: the trimmed block split at
      every line feed. */
  function Lines(block: string): (lines: seq<string>)
    ensures |lines| >= 1
  {
    Split(Trim(block), '\n')
  }

  /** The property name a header line is stored under:
      `key.trim().toLowerCase()`, where `key` is the text before the first
      colon. */
  function HeaderKey(line: string): string {
    ToLower(Trim(Split(line, ':')[0]))
  }

  /** The value stored for a header line: `valueParts.join(":").trim()`. */
  function HeaderValue(line: string): string {
    Trim(Join(Split(line, ':')[1..], ':'))
  }

  /** Splitting at every colon and re-joining all but the first piece
      amounts to cutting the line at its first colon: the key is the text
      before it, the value the text after it, inner colons included. */
  lemma HeaderLineAtFirstColon(line: string, i: nat)
    requires i < |line| && line[i] == ':' && ':' !in line[..i]
    ensures HeaderKey(line) == ToLower(Trim(line[..i]))
    ensures HeaderValue(line) == Trim(line[i + 1..])
  {
    SplitAtFirst(line, ':', i);
    JoinSplit(line[i + 1..], ':');
  }

  /** A line without a colon is stored under its whole trimmed, lower-cased
      text with the empty value. */
  lemma HeaderLineNoColon(line: string)
    requires ':' !in line
    ensures HeaderKey(line) == ToLower(Trim(line))
    ensures HeaderValue(line) == ""
  {
    SplitNoSeparator(line, ':');
    assert Split(line, ':')[1..] == [];
    assert Trim("") == "";
  }

  /** The object after the property assignments `entries`, made in order:
      a later assignment to a key overwrites an earlier one. */
  function Assign(entries: seq<(string, string)>): map<string, string>
    decreases |entries|
  {
    if entries == [] then map[]
    else
      var last := entries[|entries| - 1];
      Assign(entries[..|entries| - 1])[last.0 := last.1]
  }

  /** The assignment `parseHeaders` makes for each line. */
  function Entries(lines: seq<string>): (r: seq<(string, string)>)
    ensures |r| == |lines|
    ensures forall i :: 0 <= i < |lines| ==> r[i] == (HeaderKey(lines[i]), HeaderValue(lines[i]))
  {
    seq(|lines|, i requires 0 <= i < |lines| => (HeaderKey(lines[i]), HeaderValue(lines[i])))
  }

  /** The header object built from `lines`. */
  function HeaderMap(lines: seq<string>): map<string, string> {
    Assign(Entries(lines))
  }

  lemma HeaderMapStep(lines: seq<string>, i: nat)
    requires i < |lines|
    ensures HeaderMap(lines[..i + 1]) == HeaderMap(lines[..i])[HeaderKey(lines[i]) := HeaderValue(lines[i])]
  {
    var e := Entries(lines[..i + 1]);
    assert e[..i] == Entries(lines[..i]);
  }

  lemma WholePrefix(lines: seq<string>)
    ensures HeaderMap(lines[..|lines|]) == HeaderMap(lines)
  {
    assert lines[..|lines|] == lines;
  }

  /** `parseHeaders(headersString)`. */
  method ParseHeaders(headersString: string) returns (headers: map<string, string>)
    ensures headers == HeaderMap(Lines(headersString))
  {
    var lines := Lines(headersString);
    headers := map[];
    var i := 0;
    while i < |lines|
      invariant 0 <= i <= |lines|
      invariant headers == HeaderMap(lines[..i])
    {
      var line := lines[i];
      var parts := Split(line, ':');
      var key, valueParts := parts[0], parts[1..];
      headers := headers[ToLower(Trim(key)) := Trim(Join(valueParts, ':'))];
      HeaderMapStep(lines, i);
      i := i + 1;
    }
    WholePrefix(lines);
  }

  /** `headers.get(key)`: the value stored under the lower-cased name, or
      `None` (`undefined`) when there is none. */
  function Get(headers: map<string, string>, key: string): Option<string> {
    if ToLower(key) in headers then Some(headers[ToLower(key)]) else None
  }

  /** `get` ignores the case of the name: it answers for a name as for its
      lower-cased form, and alike for two names that lower-case alike. */
  lemma GetIgnoresCase(headers: map<string, string>, a: string, b: string)
    ensures Get(headers, a) == Get(headers, ToLower(a))
    ensures ToLower(a) == ToLower(b) ==> Get(headers, a) == Get(headers, b)
  {
    ToLowerIdempotent(a);
  }

  /** A key is assigned exactly when some entry has it. */
  lemma {:induction false} AssignDomain(entries: seq<(string, string)>, k: string)
    ensures k in Assign(entries) <==> exists i :: 0 <= i < |entries| && entries[i].0 == k
    decreases |entries|
  {
    if entries != [] {
      var n := |entries| - 1;
      var init := entries[..n];
      AssignDomain(init, k);
      if k in Assign(entries) && entries[n].0 != k {
        var i :| 0 <= i < |init| && init[i].0 == k;
        assert entries[i] == init[i];
      }
      if exists i :: 0 <= i < |entries| && entries[i].0 == k {
        var i :| 0 <= i < |entries| && entries[i].0 == k;
        if i < n {
          assert init[i] == entries[i];
        }
      }
    }
  }

  /** The value of a key is that of its last assignment. */
  lemma {:induction false} AssignLast(entries: seq<(string, string)>, i: nat)
    requires i < |entries|
    requires forall j :: i < j < |entries| ==> entries[j].0 != entries[i].0
    ensures entries[i].0 in Assign(entries) && Assign(entries)[entries[i].0] == entries[i].1
    decreases |entries|
  {
    var n := |entries| - 1;
    if i < n {
      var init := entries[..n];
      assert forall j :: i < j < |init| ==> init[j] == entries[j];
      AssignLast(init, i);
    }
  }

  /** A key is present exactly when some line has it. */
  lemma HeaderMapDomain(lines: seq<string>, k: string)
    ensures k in HeaderMap(lines) <==> exists i :: 0 <= i < |lines| && HeaderKey(lines[i]) == k
  {
    var e := Entries(lines);
    AssignDomain(e, k);
    assert forall i :: 0 <= i < |lines| ==> e[i].0 == HeaderKey(lines[i]);
  }

  /** The value stored under a key is that of the last line with the key. */
  lemma HeaderMapLast(lines: seq<string>, k: string, i: nat)
    requires i < |lines| && HeaderKey(lines[i]) == k
    requires forall j :: i < j < |lines| ==> HeaderKey(lines[j]) != k
    ensures k in HeaderMap(lines) && HeaderMap(lines)[k] == HeaderValue(lines[i])
  {
    var e := Entries(lines);
    AssignLast(e, i);
  }

  /** Every stored key is already lower case. */
  lemma HeaderMapKeysLower(lines: seq<string>, k: string)
    requires k in HeaderMap(lines)
    ensures ToLower(k) == k
  {
    HeaderMapDomain(lines, k);
    var i :| 0 <= i < |lines| && HeaderKey(lines[i]) == k;
    ToLowerIdempotent(Trim(Split(lines[i], ':')[0]));
  }

  /** `get` finds the header of every line whatever the case of the name
      asked for: it returns the value of the last line whose key is the
      lower-cased name. */
  lemma GetFindsLastLine(headersString: string, name: string, i: nat)
    requires var lines := Lines(headersString);
      i < |lines| && HeaderKey(lines[i]) == ToLower(name)
      && forall j :: i < j < |lines| ==> HeaderKey(lines[j]) != ToLower(name)
    ensures Get(HeaderMap(Lines(headersString)), name) == Some(HeaderValue(Lines(headersString)[i]))
  {
    HeaderMapLast(Lines(headersString), ToLower(name), i);
  }

  /** `get` on a name no line has gives `undefined`. */
  lemma GetMissing(headersString: string, name: string)
    requires forall line :: line in Lines(headersString) ==> HeaderKey(line) != ToLower(name)
    ensures Get(HeaderMap(Lines(headersString)), name) == None
  {
    var lines := Lines(headersString);
    HeaderMapDomain(lines, ToLower(name));
    assert forall i :: 0 <= i < |lines| ==> lines[i] in lines;
  }

  /** Every stored header can be read back through `get` by its own key. */
  lemma GetStoredKey(lines: seq<string>, k: string)
    requires k in HeaderMap(lines)
    ensures Get(HeaderMap(lines), k) == Some(HeaderMap(lines)[k])
  {
    HeaderMapKeysLower(lines, k);
  }
}
