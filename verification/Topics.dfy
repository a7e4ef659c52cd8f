/** Topic names: dm_utils_service_name builds them from a product key and a device name, and
    dm_msg_uri_parse_pkdn takes them apart again. */
module Topics {
  import opened Machine

  const DELIMITER := '/'
  const NUL := '\0'

  function Count(s: string, d: char): nat {
    if s == "" then 0 else Count(s[..|s| - 1], d) + (if s[|s| - 1] == d then 1 else 0)
  }

  lemma {:induction false} CountAppend(a: string, b: string, d: char)
    ensures Count(a + b, d) == Count(a, d) + Count(b, d)
    decreases |b|
  {
    if b == "" {
      assert a + b == a;
    } else {
      assert (a + b)[..|a + b| - 1] == a + b[..|b| - 1];
      CountAppend(a, b[..|b| - 1], d);
    }
  }

  lemma {:induction false} CountZero(s: string, d: char)
    ensures Count(s, d) == 0 <==> d !in s
    decreases |s|
  {
    if s != "" {
      CountZero(s[..|s| - 1], d);
      assert s == s[..|s| - 1] + [s[|s| - 1]];
    }
  }

  lemma {:induction false} CountMonotone(s: string, d: char, i: nat, j: nat)
    requires i <= j <= |s|
    ensures Count(s[..j], d) == Count(s[..i], d) + Count(s[i..j], d)
  {
    assert s[..j] == s[..i] + s[i..j];
    CountAppend(s[..i], s[i..j], d);
  }

  // ---------------------------------------------------------------- dm_utils_memtok

  /** Position `k` holds the `index`-th delimiter, not counting one that ends the text. */
  predicate IsToken(s: string, d: char, index: int, k: nat) {
    k + 1 < |s| && s[k] == d && Count(s[..k], d) == index - 1
  }

  lemma {:induction false} TokenUnique(s: string, d: char, index: int, j: nat, k: nat)
    requires IsToken(s, d, index, j) && IsToken(s, d, index, k)
    ensures j == k
  {
    if j < k {
      TokenBefore(s, d, j, k);
    } else if k < j {
      TokenBefore(s, d, k, j);
    }
  }

  lemma {:induction false} TokenBefore(s: string, d: char, j: nat, k: nat)
    requires j < k <= |s| && s[j] == d
    ensures Count(s[..j], d) < Count(s[..k], d)
  {
    assert s[..j + 1][..j] == s[..j];
    CountMonotone(s, d, j + 1, k);
  }

  /** dm_utils_memtok */
  method Memtok(input: string, delimiter: char, index: int) returns (offset: Option<nat>)
    ensures offset.Some? ==> IsToken(input, delimiter, index, offset.value)
    ensures offset == None ==> forall k: nat :: !IsToken(input, delimiter, index, k)
  {
    var count := 0;
    var i := 0;
    while i < |input|
      invariant 0 <= i <= |input|
      invariant i < |input| ==> count == Count(input[..i], delimiter)
      invariant forall k: nat :: k < i ==> !IsToken(input, delimiter, index, k)
    {
      assert input[..i + 1][..i] == input[..i];
      if input[i] == delimiter && i + 1 < |input| {
        count := count + 1;
        if count == index {
          return Some(i);
        }
      }
      i := i + 1;
    }
    offset := None;
  }

  // ---------------------------------------------------------------- dm_msg_uri_parse_pkdn

  datatype Names = Names(productKey: string, deviceName: string)

  predicate ParsesAt(uri: string, start: int, end: int, i: nat, j: nat, k: nat, names: Names) {
    && IsToken(uri, DELIMITER, start, i) && IsToken(uri, DELIMITER, start + 1, j) && IsToken(uri, DELIMITER, end, k)
    && i < j < k && names == Names(uri[i + 1..j], uri[j + 1..k])
  }

  /** The names lie between the delimiters number `start`, `start` + 1 and `end`. */
  ghost predicate Parses(uri: string, start: int, end: int, names: Names) {
    exists i: nat, j: nat, k: nat :: ParsesAt(uri, start, end, i, j, k, names)
  }

  lemma {:induction false} ParsesOnceAt(uri: string, start: int, end: int, i: nat, j: nat, k: nat, a: Names,
                                        i': nat, j': nat, k': nat, b: Names)
    requires ParsesAt(uri, start, end, i, j, k, a) && ParsesAt(uri, start, end, i', j', k', b)
    ensures a == b
  {
    hide IsToken;
    TokenUnique(uri, DELIMITER, start, i, i');
    TokenUnique(uri, DELIMITER, start + 1, j, j');
    TokenUnique(uri, DELIMITER, end, k, k');
  }

  lemma {:induction false} ParsesOnce(uri: string, start: int, end: int, a: Names, b: Names)
    requires Parses(uri, start, end, a) && Parses(uri, start, end, b)
    ensures a == b
  {
    var i: nat, j: nat, k: nat :| ParsesAt(uri, start, end, i, j, k, a);
    var i': nat, j': nat, k': nat :| ParsesAt(uri, start, end, i', j', k', b);
    hide ParsesAt;
    ParsesOnceAt(uri, start, end, i, j, k, a, i', j', k', b);
  }

  /** A topic built from `head`, which brings `n` delimiters and ends with one. */
  function Topic(head: string, productKey: string, deviceName: string, name: string): string {
    head + productKey + [DELIMITER] + deviceName + [DELIMITER] + name
  }

  lemma {:induction false} CountSnoc(s: string, d: char)
    ensures Count(s + [d], d) == Count(s, d) + 1
  {
    assert (s + [d])[..|s|] == s;
  }

  function UpToKey(head: string): string
    requires head != ""
  {
    head[..|head| - 1]
  }

  function UpToName(head: string, pk: string): string { head + pk }

  function UpToRest(head: string, pk: string, dn: string): string { (head + pk + [DELIMITER]) + dn }

  /** The text before each of the three delimiters, and between them. */
  lemma TopicPrefixes(head: string, pk: string, dn: string, name: string)
    requires head != "" && head[|head| - 1] == DELIMITER
    ensures var t, i, j, k := Topic(head, pk, dn, name), |head| - 1, |head| + |pk|, |head| + |pk| + 1 + |dn|;
      && |t| == k + 1 + |name| && t[i] == t[j] == t[k] == DELIMITER
      && t[..i] == UpToKey(head) && t[..j] == UpToName(head, pk) && t[..k] == UpToRest(head, pk, dn)
      && t[i + 1..j] == pk && t[j + 1..k] == dn
  {
  }

  lemma {:induction false} TopicCounts(head: string, pk: string, dn: string)
    requires head != "" && head[|head| - 1] == DELIMITER && DELIMITER !in pk && DELIMITER !in dn
    ensures var n := Count(head, DELIMITER);
      && Count(UpToKey(head), DELIMITER) == n - 1 && Count(UpToName(head, pk), DELIMITER) == n
      && Count(UpToRest(head, pk, dn), DELIMITER) == n + 1
  {
    assert Count(UpToKey(head), DELIMITER) == Count(head, DELIMITER) - 1;
    hide Count;
    CountZero(pk, DELIMITER);
    CountZero(dn, DELIMITER);
    CountAppend(head, pk, DELIMITER);
    CountSnoc(head + pk, DELIMITER);
    CountAppend(head + pk + [DELIMITER], dn, DELIMITER);
  }

  lemma TokenAt(t: string, before: string, index: int, k: nat)
    requires k + 1 < |t| && t[k] == DELIMITER && t[..k] == before && Count(before, DELIMITER) == index - 1
    ensures IsToken(t, DELIMITER, index, k)
  {
  }

  lemma {:induction false} ThreeTokens(t: string, n: int, i: nat, j: nat, k: nat, names: Names)
    requires IsToken(t, DELIMITER, n, i) && IsToken(t, DELIMITER, n + 1, j) && IsToken(t, DELIMITER, n + 2, k)
    requires i < j < k < |t| && t[i + 1..j] == names.productKey && t[j + 1..k] == names.deviceName
    ensures ParsesAt(t, n, n + 2, i, j, k, names)
  {
    hide IsToken;
  }

  /** Where the three delimiters of a topic are. */
  lemma {:induction false} TopicTokens(head: string, pk: string, dn: string, name: string)
    requires head != "" && head[|head| - 1] == DELIMITER && DELIMITER !in pk && DELIMITER !in dn && name != ""
    ensures var n := Count(head, DELIMITER);
      ParsesAt(Topic(head, pk, dn, name), n, n + 2, |head| - 1, |head| + |pk|, |head| + |pk| + 1 + |dn|, Names(pk, dn))
  {
    hide Count, Topic, IsToken, UpToKey, UpToName, UpToRest, ParsesAt;
    TopicPrefixes(head, pk, dn, name);
    TopicCounts(head, pk, dn);
    var t, n := Topic(head, pk, dn, name), Count(head, DELIMITER);
    var i, j, k := |head| - 1, |head| + |pk|, |head| + |pk| + 1 + |dn|;
    TokenAt(t, UpToKey(head), n, i);
    TokenAt(t, UpToName(head, pk), n + 1, j);
    TokenAt(t, UpToRest(head, pk, dn), n + 2, k);
    ThreeTokens(t, n, i, j, k, Names(pk, dn));
  }

  /** Between two consecutive delimiters there is none. */
  lemma {:induction false} NoneBetween(s: string, d: char, index: int, i: nat, j: nat)
    requires IsToken(s, d, index, i) && IsToken(s, d, index + 1, j) && i < j
    ensures d !in s[i + 1..j]
  {
    assert s[..i + 1][..i] == s[..i];
    CountMonotone(s, d, i + 1, j);
    CountZero(s[i + 1..j], d);
  }

  lemma {:induction false} ParsedNamesArePlain(t: string, n: int, names: Names)
    requires Parses(t, n, n + 2, names)
    ensures DELIMITER !in names.productKey && DELIMITER !in names.deviceName
  {
    var i: nat, j: nat, k: nat :| ParsesAt(t, n, n + 2, i, j, k, names);
    hide IsToken;
    NoneBetween(t, DELIMITER, n, i, j);
    NoneBetween(t, DELIMITER, n + 1, j, k);
  }

  /** Without a service name the last delimiter ends the topic, and the search does not see it. */
  lemma {:induction false} NoNameNoParse(head: string, pk: string, dn: string, names: Names)
    requires head != "" && head[|head| - 1] == DELIMITER && DELIMITER !in pk && DELIMITER !in dn
    ensures var n := Count(head, DELIMITER); !Parses(Topic(head, pk, dn, ""), n, n + 2, names)
  {
    var t, n, last := Topic(head, pk, dn, ""), Count(head, DELIMITER), |head| + |pk| + 1 + |dn|;
    TopicGrows(head, pk, dn);
    TopicTokens(head, pk, dn, "x");
    hide Count, Topic, IsToken;
    NoLastToken(t, n + 2, last);
  }

  lemma TopicGrows(head: string, pk: string, dn: string)
    ensures |Topic(head, pk, dn, "")| == |head| + |pk| + 1 + |dn| + 1
    ensures Topic(head, pk, dn, "x") == Topic(head, pk, dn, "") + "x"
  {
  }

  lemma {:induction false} NoLastToken(t: string, index: int, last: nat)
    requires |t| == last + 1 && IsToken(t + "x", DELIMITER, index, last)
    ensures forall k: nat :: !IsToken(t, DELIMITER, index, k)
  {
    hide Count;
    forall k: nat | IsToken(t, DELIMITER, index, k) ensures false {
      LongerToken(t, "x", index, k);
      TokenUnique(t + "x", DELIMITER, index, k, last);
    }
  }

  lemma {:induction false} LongerToken(s: string, more: string, index: int, k: nat)
    requires IsToken(s, DELIMITER, index, k)
    ensures IsToken(s + more, DELIMITER, index, k)
  {
    assert (s + more)[..k] == s[..k];
  }

  /** The parser recovers both names from a topic exactly when neither contains a delimiter and
      something follows them. */
  lemma {:induction false} TopicRoundTripIff(head: string, pk: string, dn: string, name: string)
    requires head != "" && head[|head| - 1] == DELIMITER
    ensures var n := Count(head, DELIMITER);
      Parses(Topic(head, pk, dn, name), n, n + 2, Names(pk, dn))
      <==> DELIMITER !in pk && DELIMITER !in dn && name != ""
  {
    var t, n := Topic(head, pk, dn, name), Count(head, DELIMITER);
    hide Count, Topic, Parses, ParsesAt;
    if DELIMITER !in pk && DELIMITER !in dn {
      if name == "" {
        NoNameNoParse(head, pk, dn, Names(pk, dn));
      } else {
        TopicTokens(head, pk, dn, name);
        AtIsParsed(t, n, n + 2, |head| - 1, |head| + |pk|, |head| + |pk| + 1 + |dn|, Names(pk, dn));
      }
    } else if Parses(t, n, n + 2, Names(pk, dn)) {
      ParsedNamesArePlain(t, n, Names(pk, dn));
      assert false;
    }
  }

  lemma AtIsParsed(uri: string, start: int, end: int, i: nat, j: nat, k: nat, names: Names)
    requires ParsesAt(uri, start, end, i, j, k, names)
    ensures Parses(uri, start, end, names)
  {
  }

  /** dm_msg_uri_parse_pkdn. The buffers must hold the names: the copies are not checked. */
  method UriParsePkdn(uri: string, startDeli: int, endDeli: int, productKey: array<char>, deviceName: array<char>)
      returns (ok: bool)
    requires productKey != deviceName && startDeli + 1 < endDeli
    requires forall names: Names :: Parses(uri, startDeli, endDeli, names) ==>
      |names.productKey| <= productKey.Length && |names.deviceName| <= deviceName.Length
    modifies productKey, deviceName
    ensures ok <==> exists names: Names :: Parses(uri, startDeli, endDeli, names)
    ensures forall names: Names :: Parses(uri, startDeli, endDeli, names) ==>
      && productKey[..] == names.productKey + old(productKey[..])[|names.productKey|..]
      && deviceName[..] == names.deviceName + old(deviceName[..])[|names.deviceName|..]
    ensures !ok ==> productKey[..] == old(productKey[..]) && deviceName[..] == old(deviceName[..])
  {
    var start := Memtok(uri, DELIMITER, startDeli);
    if start == None {
      return false;
    }
    var slice := Memtok(uri, DELIMITER, startDeli + 1);
    if slice == None {
      return false;
    }
    var end := Memtok(uri, DELIMITER, endDeli);
    if end == None {
      return false;
    }
    var i, j, k := start.value, slice.value, end.value;
    TokensInOrder(uri, DELIMITER, startDeli, startDeli + 1, i, j);
    TokensInOrder(uri, DELIMITER, startDeli + 1, endDeli, j, k);
    ghost var names := Names(uri[i + 1..j], uri[j + 1..k]);
    AtIsParsed(uri, startDeli, endDeli, i, j, k, names);
    forall other: Names | Parses(uri, startDeli, endDeli, other) ensures other == names {
      ParsesOnce(uri, startDeli, endDeli, other, names);
    }
    hide Parses, IsToken;
    CopyText(productKey, uri[i + 1..j]);
    CopyText(deviceName, uri[j + 1..k]);
    ok := true;
  }

  lemma {:induction false} TokensInOrder(s: string, d: char, a: int, b: int, i: nat, j: nat)
    requires IsToken(s, d, a, i) && IsToken(s, d, b, j) && a < b
    ensures i < j
  {
    if j < i {
      TokenBefore(s, d, j, i);
    }
  }

  method CopyText(buf: array<char>, text: string)
    requires |text| <= buf.Length
    modifies buf
    ensures buf[..] == text + old(buf[..])[|text|..]
  {
    forall i | 0 <= i < |text| {
      buf[i] := text[i];
    }
  }

  // ---------------------------------------------------------------- dm_utils_service_name

  /** A prefix, as the text around its %s conversions: none, one or two of them. */
  datatype Format =
    | Literal(text: string)
    | One(head: string, post: string)
    | Two(head: string, mid: string, post: string)

  function FormatText(f: Format): string {
    match f
    case Literal(text) => text
    case One(head, post) => head + "%s" + post
    case Two(head, mid, post) => head + "%s" + mid + "%s" + post
  }

  /** What snprintf copies as it stands. */
  predicate NoPercent(s: string) { '%' !in s }

  /** The conversions are the ones between the parts, and no others. */
  predicate IsFormat(f: Format) {
    match f
    case Literal(text) => NoPercent(text)
    case One(head, post) => NoPercent(head) && NoPercent(post)
    case Two(head, mid, post) => NoPercent(head) && NoPercent(mid) && NoPercent(post)
  }

  /** Arguments without a conversion are ignored. */
  function Formatted(f: Format, a: string, b: string): string
    requires IsFormat(f)
  {
    match f
    case Literal(text) => text
    case One(head, post) => head + a + post
    case Two(head, mid, post) => head + a + mid + b + post
  }

  predicate Plain(s: string) { NUL !in s }

  /** The string that a C buffer holds. */
  function CString(buf: string): string { if buf == "" || buf[0] == NUL then "" else [buf[0]] + CString(buf[1..]) }

  lemma {:induction false} CStringOf(text: string, rest: string)
    requires Plain(text) && (rest == "" || rest[0] == NUL)
    ensures CString(text + rest) == text
  {
    if text == "" {
      assert text + rest == rest;
    } else {
      assert (text + rest)[1..] == text[1..] + rest;
      CStringOf(text[1..], rest);
    }
  }

  function ServiceName(prefix: Option<Format>, name: Option<string>, productKey: string, deviceName: string): string
    requires prefix.Some? ==> IsFormat(prefix.value)
  {
    (if prefix.Some? then Formatted(prefix.value, productKey, deviceName) else "")
    + (if name.Some? then name.value else "")
  }

  method Strlen(buf: array<char>) returns (n: nat)
    requires NUL in buf[..]
    ensures n < buf.Length && buf[n] == NUL && NUL !in buf[..n] && n == |CString(buf[..])|
  {
    assert NUL in buf[..];
    n := 0;
    while buf[n] != NUL
      invariant 0 <= n < buf.Length && NUL in buf[n..] && NUL !in buf[..n]
      decreases buf.Length - n
    {
      assert buf[n..] == [buf[n]] + buf[n + 1..];
      n := n + 1;
    }
    assert buf[..] == buf[..n] + buf[n..];
    CStringOf(buf[..n], buf[n..]);
  }

  function Nuls(n: nat): (r: string)
    ensures |r| == n
  {
    seq(n, _ => NUL)
  }

  /** The buffer holds `text`, and zeros behind it. */
  ghost predicate Holds(buf: string, text: string) {
    |text| < |buf| && Plain(text) && buf == text + Nuls(|buf| - |text|)
  }

  lemma {:induction false} HeldText(buf: string, text: string)
    requires Holds(buf, text)
    ensures |text| < |buf| && CString(buf) == text && NUL in buf
  {
    var rest := Nuls(|buf| - |text|);
    assert rest[0] == NUL && buf[|text|] == rest[0];
    CStringOf(text, rest);
  }

  lemma HoldsMore(buf: string, text: string, more: string)
    requires Holds(buf, text) && Plain(more) && |text| + |more| < |buf|
    ensures Holds(text + more + buf[|text| + |more|..], text + more)
  {
  }

  /** snprintf over the whole of `buf` */
  method Snprintf(buf: array<char>, f: Format, a: string, b: string)
    requires 0 < buf.Length && IsFormat(f)
    modifies buf
    ensures var text := Formatted(f, a, b);
      var cut := if |text| < buf.Length then text else text[..buf.Length - 1];
      buf[..] == cut + [NUL] + old(buf[..])[|cut| + 1..]
  {
    var text := Formatted(f, a, b);
    var cut := if |text| < buf.Length then text else text[..buf.Length - 1];
    CopyText(buf, cut);
    buf[|cut|] := NUL;
  }

  /** memcpy to the end of the string in `buf` */
  method AppendText(buf: array<char>, more: string, ghost text: string)
    requires Holds(buf[..], text) && Plain(more) && |text| + |more| < buf.Length
    modifies buf
    ensures Holds(buf[..], text + more)
  {
    HeldText(buf[..], text);
    HoldsMore(buf[..], text, more);
    hide Holds;
    ghost var was := buf[..];
    var n := Strlen(buf);
    forall i | 0 <= i < |more| {
      buf[n + i] := more[i];
    }
    TextFirst(was, text);
    hide CString;
    assert buf[..] == was[..n] + more + was[n + |more|..];
  }

  lemma TextFirst(buf: string, text: string)
    requires Holds(buf, text)
    ensures buf[..|text|] == text
  {
  }

  lemma FormatsInto(was: string, f: Format, a: string, b: string)
    requires IsFormat(f) && was == Nuls(|was|) && |Formatted(f, a, b)| < |was| && Plain(Formatted(f, a, b))
    ensures var text := Formatted(f, a, b); Holds(text + [NUL] + was[|text| + 1..], text)
  {
  }

  lemma {:induction false} PlainFormatted(f: Format, a: string, b: string)
    requires IsFormat(f) && Plain(FormatText(f)) && Plain(a) && Plain(b)
    ensures Plain(Formatted(f, a, b)) && |Formatted(f, a, b)| <= |FormatText(f)| + |a| + |b|
  {
    var t := FormatText(f);
    match f
    case Literal(text) =>
    case One(head, post) => assert head == t[..|head|] && post == t[|head| + 2..];
    case Two(head, mid, post) =>
      assert head == t[..|head|] && mid == t[|head| + 2..][..|mid|] && post == t[|head| + |mid| + 4..];
  }

  /** dm_utils_service_name. The string always fits the buffer that is allocated for it. */
  method BuildServiceName(prefix: Option<Format>, name: Option<string>, productKey: Option<string>,
                          deviceName: Option<string>)
      returns (r: Option<array<char>>)
    requires prefix.Some? ==> IsFormat(prefix.value) && Plain(FormatText(prefix.value))
    requires (name.Some? ==> Plain(name.value)) && (productKey.Some? ==> Plain(productKey.value))
    requires deviceName.Some? ==> Plain(deviceName.value)
    ensures r == None <==> (prefix == None && name == None) || productKey == None || deviceName == None
    ensures r.Some? ==>
      fresh(r.value) && Holds(r.value[..], ServiceName(prefix, name, productKey.value, deviceName.value))
    ensures r.Some? ==>
      r.value.Length == (if prefix.Some? then |FormatText(prefix.value)| else 0)
                        + (if name.Some? then |name.value| else 0) + |productKey.value| + |deviceName.value| + 1
  {
    if (prefix == None && name == None) || productKey == None || deviceName == None {
      return None;
    }
    var pk, dn := productKey.value, deviceName.value;
    var prefixLen := if prefix == None then 0 else |FormatText(prefix.value)|;
    var nameLen := if name == None then 0 else |name.value|;
    var buf := new char[prefixLen + nameLen + |pk| + |dn| + 1](_ => NUL);
    assert buf[..] == Nuls(buf.Length);
    ghost var text := "";
    if prefix.Some? {
      PlainFormatted(prefix.value, pk, dn);
      FormatsInto(buf[..], prefix.value, pk, dn);
      Snprintf(buf, prefix.value, pk, dn);
      text := Formatted(prefix.value, pk, dn);
    } else {
      assert buf[..] == "" + Nuls(buf.Length);
    }
    hide Holds, Formatted, FormatText, Nuls;
    if name.Some? {
      AppendText(buf, name.value, text);
    } else {
      assert text + "" == text;
    }
    r := Some(buf);
  }

  /** Topics under "/sys/%s/%s/". */
  lemma {:induction false} ServiceNameText(name: string, pk: string, dn: string)
    ensures var f := Two("/sys/", "/", "/");
      && FormatText(f) == "/sys/%s/%s/" && IsFormat(f)
      && ServiceName(Some(f), Some(name), pk, dn) == "/sys/" + pk + "/" + dn + "/" + name
      && ServiceName(Some(f), None, pk, dn) == "/sys/" + pk + "/" + dn + "/"
    ensures ServiceName(None, Some(name), pk, dn) == name
  {
  }

  /** One of them, and the names that the parser finds in it. */
  lemma {:induction false} ServiceNameSample()
    ensures ServiceName(Some(Two("/sys/", "/", "/")), Some("thing/x"), "a1", "dev") == "/sys/a1/dev/thing/x"
    ensures Parses("/sys/a1/dev/thing/x", 2, 4, Names("a1", "dev"))
  {
    ServiceNameText("thing/x", "a1", "dev");
    var f := Two("/sys/", "/", "/");
    hide Parses, ServiceName, Count;
    assert "/sys/" + "a1" + "/" + "dev" + "/" + "thing/x" == "/sys/a1/dev/thing/x";
    ServiceRoundTripIff(f, "thing/x", "a1", "dev");
  }

  /** The round trip from builder to parser, for prefixes like "/sys/%s/%s/": the parser is given the
      number of delimiters in front of the names. */
  lemma {:induction false} ServiceRoundTripIff(f: Format, name: string, pk: string, dn: string)
    requires f.Two? && IsFormat(f)
    requires f.head != "" && f.head[|f.head| - 1] == DELIMITER && f.mid == f.post == [DELIMITER]
    ensures var n := Count(f.head, DELIMITER);
      && (Parses(ServiceName(Some(f), Some(name), pk, dn), n, n + 2, Names(pk, dn))
          <==> DELIMITER !in pk && DELIMITER !in dn && name != "")
      && (f.head == "/sys/" ==> n == 2) && (f.head == "/topic/sys/" ==> n == 3)
  {
    assert ServiceName(Some(f), Some(name), pk, dn) == Topic(f.head, pk, dn, name);
    TopicRoundTripIff(f.head, pk, dn, name);
    hide Topic, ServiceName, Parses;
    SlashesOf();
  }

  lemma {:induction false} CountBetween(a: string)
    requires DELIMITER !in a
    ensures Count([DELIMITER] + a, DELIMITER) == 1 && Count([DELIMITER] + a + [DELIMITER], DELIMITER) == 2
  {
    assert Count("", DELIMITER) == 0 && "" + [DELIMITER] == [DELIMITER];
    hide Count;
    CountSnoc("", DELIMITER);
    CountAppend([DELIMITER], a, DELIMITER);
    CountZero(a, DELIMITER);
    CountSnoc([DELIMITER] + a, DELIMITER);
  }

  lemma {:induction false} SlashesOf()
    ensures Count("/sys/", DELIMITER) == 2 && Count("/topic/sys/", DELIMITER) == 3
  {
    hide Count;
    var sys, topic := [DELIMITER] + "sys" + [DELIMITER], [DELIMITER] + "topic";
    CountBetween("sys");
    CountBetween("topic");
    CountAppend(topic, sys, DELIMITER);
    assert sys == "/sys/";
    assert topic + sys == "/topic/sys/";
  }
}
