/** ParseFromUrlencoded_ of src/http/httprequest.cc:170-216: one pass over the body, rewriting it in place. */
module FormDecoding {
  import opened CppArithmetic

  type Pairs = seq<(string, string)>

  /** char is signed. */
  function Code(c: char): int {
    var b := c as int % 256;
    if b < 128 then b else b - 256
  }

  function ToChar(n: int): char {
    (n % 256) as char
  }

  /** Lines 136-143: a digit is returned as its character code. */
  function ConverHex(c: char): int {
    if 'A' <= c <= 'F' then Code(c) - 65 + 10
    else if 'a' <= c <= 'f' then Code(c) - 97 + 10
    else Code(c)
  }

  /** `Overrun`: an escape needs characters behind the end of the string, which C++ leaves undefined. */
  datatype Scanned = Overrun | Scanned(body: string, j: nat, key: string, post: map<string, string>)

  /** The loop of lines 182-209 from index `i` on. */
  function Scan(body: string, i: nat, j: nat, key: string, post: map<string, string>): (r: Scanned)
    requires j <= i <= |body|
    ensures r.Scanned? ==> |r.body| == |body| && r.j <= |body|
    decreases |body| - i
  {
    if i >= |body| then Scanned(body, j, key, post)
    else if body[i] == '=' then Scan(body, i + 1, i + 1, body[j..i], post)
    else if body[i] == '+' then Scan(body[i := ' '], i + 1, j, key, post)
    else if body[i] == '%' then
      if i + 2 >= |body| then Overrun
      else
        var num := ConverHex(body[i + 1]) * 16 + ConverHex(body[i + 2]);
        var body' := body[i + 2 := ToChar(Remainder(num, 10) + 48)][i + 1 := ToChar(Quotient(num, 10) + 48)];
        Scan(body', i + 3, j, key, post)
    else if body[i] == '&' then Scan(body, i + 1, i + 1, key, post[key := body[j..i]])
    else Scan(body, i + 1, j, key, post)
  }

  /** Lines 211-215: the last value, unless it is empty or its key is already there. */
  function Finish(s: Scanned): Scanned {
    if s.Scanned? && s.key !in s.post && s.j < |s.body| then s.(post := s.post[s.key := s.body[s.j..]]) else s
  }

  function Decode(body: string, post: map<string, string>): Scanned {
    if body == "" then Scanned(body, 0, "", post) else Finish(Scan(body, 0, 0, "", post))
  }

  // ---------------------------------------------------------------- the printer

  /** Two hexadecimal digits. */
  function HexDigit(n: nat): char
    requires n < 16
  {
    "0123456789ABCDEF"[n]
  }

  function Escape(c: char): string {
    ['%', HexDigit(c as int / 16 % 16), HexDigit(c as int % 16)]
  }

  /** What a sender must escape, whatever else it does: the characters the format gives a meaning. */
  const RESERVED: set<char> := {'=', '&', '%', '+'}

  function EncodeChar(escaped: set<char>, c: char): string {
    if c in escaped then Escape(c) else if c == ' ' then "+" else [c]
  }

  function Encode(escaped: set<char>, part: string): string {
    if part == "" then "" else EncodeChar(escaped, part[0]) + Encode(escaped, part[1..])
  }

  function PrintPair(escaped: set<char>, p: (string, string)): string {
    Encode(escaped, p.0) + "=" + Encode(escaped, p.1)
  }

  function PrintForm(escaped: set<char>, pairs: Pairs): string {
    if pairs == [] then ""
    else if |pairs| == 1 then PrintPair(escaped, pairs[0])
    else PrintPair(escaped, pairs[0]) + "&" + PrintForm(escaped, pairs[1..])
  }

  /** Nothing in it is sent as an escape. */
  predicate Clean(escaped: set<char>, part: string) {
    forall c | c in part :: c !in escaped
  }

  predicate CleanPairs(escaped: set<char>, pairs: Pairs) {
    forall p | p in pairs :: Clean(escaped, p.0) && Clean(escaped, p.1)
  }

  /** A list of pairs as a map, later pairs winning. */
  function AsMap(pairs: Pairs, post: map<string, string>): map<string, string> {
    if pairs == [] then post else AsMap(pairs[1..], post[pairs[0].0 := pairs[0].1])
  }

  // ---------------------------------------------------------------- what the decoder makes of a printed list

  /** The three characters lines 194-199 leave in place of an escape. */
  function Mangled(c: char): string {
    var num := ConverHex(Escape(c)[1]) * 16 + ConverHex(Escape(c)[2]);
    ['%', ToChar(Quotient(num, 10) + 48), ToChar(Remainder(num, 10) + 48)]
  }

  function EchoChar(escaped: set<char>, c: char): string {
    if c in escaped then Mangled(c) else [c]
  }

  /** What becomes of one part. */
  function Echo(escaped: set<char>, part: string): (r: string)
    ensures Clean(escaped, part) ==> r == part
    ensures !Clean(escaped, part) ==> |r| > |part|
    ensures |r| == |Encode(escaped, part)|
  {
    if part == "" then ""
    else
      assert part == [part[0]] + part[1..];
      EchoChar(escaped, part[0]) + Echo(escaped, part[1..])
  }

  function EchoPair(escaped: set<char>, p: (string, string)): (string, string) {
    (Echo(escaped, p.0), Echo(escaped, p.1))
  }

  function Echoes(escaped: set<char>, pairs: Pairs): Pairs {
    if pairs == [] then [] else [EchoPair(escaped, pairs[0])] + Echoes(escaped, pairs[1..])
  }

  /** Later pairs win, except that the last pair counts only when its key is new and its value not empty. */
  function Image(pairs: Pairs, post: map<string, string>): map<string, string>
    requires pairs != []
  {
    var last := pairs[|pairs| - 1];
    var earlier := AsMap(pairs[..|pairs| - 1], post);
    if last.0 !in earlier && last.1 != "" then earlier[last.0 := last.1] else earlier
  }

  /** A part is scanned in place. */
  lemma {:induction false} ScanPart(
      escaped: set<char>, pre: string, part: string, suf: string, j: nat, key: string, post: map<string, string>)
    requires RESERVED <= escaped && j <= |pre|
    ensures var echo := Echo(escaped, part);
      Scan(pre + Encode(escaped, part) + suf, |pre|, j, key, post) == Scan(pre + echo + suf, |pre + echo|, j, key, post)
    decreases |part|
  {
    if part == "" {
      assert pre + "" + suf == pre + suf;
      assert pre + "" == pre;
    } else {
      var (sent, sents) := (EncodeChar(escaped, part[0]), Encode(escaped, part[1..]));
      var (kept, echoes) := (EchoChar(escaped, part[0]), Echo(escaped, part[1..]));
      ScanChar(escaped, pre, part[0], sents + suf, j, key, post);
      ScanPart(escaped, pre + kept, part[1..], suf, j, key, post);
      Regroup(pre, sent, sents, suf);
      Regroup(pre, kept, sents, suf);
      Regroup(pre, kept, echoes, suf);
    }
  }

  lemma Regroup(a: string, b: string, c: string, d: string)
    ensures a + (b + c) + d == a + b + (c + d) == a + b + c + d
    ensures a + (b + (c + d)) == a + b + (c + d)
    ensures a + (b + c) == a + b + c
  {
  }

  lemma ScanChar(escaped: set<char>, pre: string, c: char, suf: string, j: nat, key: string, post: map<string, string>)
    requires RESERVED <= escaped && j <= |pre|
    ensures var sent := EncodeChar(escaped, c); var kept := EchoChar(escaped, c);
      Scan(pre + sent + suf, |pre|, j, key, post) == Scan(pre + kept + suf, |pre + kept|, j, key, post)
  {
    var i := |pre|;
    if c in escaped {
      var body := pre + Escape(c) + suf;
      assert body[i] == '%' && body[i + 1] == Escape(c)[1] && body[i + 2] == Escape(c)[2];
      assert body[i + 2 := Mangled(c)[2]][i + 1 := Mangled(c)[1]] == pre + Mangled(c) + suf;
    } else if c == ' ' {
      var body := pre + "+" + suf;
      assert body[i] == '+' && body[i := ' '] == pre + [c] + suf;
    } else {
      var body := pre + [c] + suf;
      assert body[i] == c;
    }
  }

  /** A name is scanned up to and including its equals sign. */
  lemma ScanName(escaped: set<char>, pre: string, part: string, rest: string, key: string, post: map<string, string>)
    requires RESERVED <= escaped
    ensures var name := Echo(escaped, part); var pre' := pre + name + "=";
      Scan(pre + Encode(escaped, part) + ("=" + rest), |pre|, |pre|, key, post) ==
      Scan(pre' + rest, |pre'|, |pre'|, name, post)
  {
    var name := Echo(escaped, part);
    ScanPart(escaped, pre, part, "=" + rest, |pre|, key, post);
    assert pre + name + ("=" + rest) == pre + name + "=" + rest;
    ScanEquals(pre, name, rest, key, post);
  }

  lemma ScanEquals(pre: string, name: string, rest: string, key: string, post: map<string, string>)
    ensures Scan(pre + name + "=" + rest, |pre + name|, |pre|, key, post) ==
      Scan(pre + name + "=" + rest, |pre + name + "="|, |pre + name + "="|, name, post)
  {
    var body := pre + name + "=" + rest;
    assert body[|pre + name|] == '=' && body[|pre|..|pre + name|] == name;
  }

  /** A value that another pair follows is stored. */
  lemma ScanValue(escaped: set<char>, pre: string, part: string, rest: string, key: string, post: map<string, string>)
    requires RESERVED <= escaped
    ensures var value := Echo(escaped, part); var pre' := pre + value + "&";
      Scan(pre + Encode(escaped, part) + ("&" + rest), |pre|, |pre|, key, post) ==
      Scan(pre' + rest, |pre'|, |pre'|, key, post[key := value])
  {
    var value := Echo(escaped, part);
    ScanPart(escaped, pre, part, "&" + rest, |pre|, key, post);
    assert pre + value + ("&" + rest) == pre + value + "&" + rest;
    ScanAmpersand(pre, value, rest, key, post);
  }

  lemma ScanAmpersand(pre: string, value: string, rest: string, key: string, post: map<string, string>)
    ensures Scan(pre + value + "&" + rest, |pre + value|, |pre|, key, post) ==
      Scan(pre + value + "&" + rest, |pre + value + "&"|, |pre + value + "&"|, key, post[key := value])
  {
    var body := pre + value + "&" + rest;
    assert body[|pre + value|] == '&' && body[|pre|..|pre + value|] == value;
  }

  /** The last value runs to the end of the body. */
  lemma FinishValue(escaped: set<char>, pre: string, part: string, key: string, post: map<string, string>)
    requires RESERVED <= escaped
    ensures var value := Echo(escaped, part);
      var s := Finish(Scan(pre + Encode(escaped, part), |pre|, |pre|, key, post));
      s.Scanned? && s.post == if key !in post && value != "" then post[key := value] else post
  {
    ScanPart(escaped, pre, part, "", |pre|, key, post);
    assert pre + Encode(escaped, part) + "" == pre + Encode(escaped, part);
    FinishAtEnd(pre, Echo(escaped, part), key, post);
  }

  lemma FinishAtEnd(pre: string, value: string, key: string, post: map<string, string>)
    ensures var s := Finish(Scan(pre + value + "", |pre + value|, |pre|, key, post));
      s.Scanned? && s.post == if key !in post && value != "" then post[key := value] else post
  {
    assert (pre + value + "")[|pre|..] == value;
  }

  lemma {:induction false} EchoesAre(escaped: set<char>, pairs: Pairs)
    ensures |Echoes(escaped, pairs)| == |pairs|
    ensures forall k | 0 <= k < |pairs| :: Echoes(escaped, pairs)[k] == EchoPair(escaped, pairs[k])
    decreases |pairs|
  {
    if pairs != [] {
      EchoesAre(escaped, pairs[1..]);
    }
  }

  lemma RegroupPair(pre: string, name: string, value: string, rest: string)
    ensures pre + (name + "=" + value + "&" + rest) == pre + name + ("=" + (value + ("&" + rest)))
  {
  }

  lemma ScanNext(
      escaped: set<char>, pre: string, p: (string, string), rest: string, key: string, post: map<string, string>)
    requires RESERVED <= escaped
    ensures var q := EchoPair(escaped, p); var pre' := pre + q.0 + "=" + q.1 + "&";
      Scan(pre + (PrintPair(escaped, p) + "&" + rest), |pre|, |pre|, key, post) ==
      Scan(pre' + rest, |pre'|, |pre'|, q.0, post[q.0 := q.1])
  {
    var (name, value) := (Encode(escaped, p.0), Encode(escaped, p.1));
    var named := pre + EchoPair(escaped, p).0 + "=";
    RegroupPair(pre, name, value, rest);
    ScanName(escaped, pre, p.0, value + ("&" + rest), key, post);
    Regroup(named, value, "&", rest);
    ScanValue(escaped, named, p.1, rest, EchoPair(escaped, p).0, post);
  }

  lemma FinishPair(escaped: set<char>, pre: string, p: (string, string), key: string, post: map<string, string>)
    requires RESERVED <= escaped
    ensures var q := EchoPair(escaped, p);
      var s := Finish(Scan(pre + PrintPair(escaped, p), |pre|, |pre|, key, post));
      s.Scanned? && s.post == if q.0 !in post && q.1 != "" then post[q.0 := q.1] else post
  {
    var value := Encode(escaped, p.1);
    var named := pre + EchoPair(escaped, p).0 + "=";
    assert pre + PrintPair(escaped, p) == pre + Encode(escaped, p.0) + ("=" + value);
    ScanName(escaped, pre, p.0, value, key, post);
    FinishValue(escaped, named, p.1, EchoPair(escaped, p).0, post);
  }

  lemma {:induction false} ScanForm(escaped: set<char>, pre: string, pairs: Pairs, key: string, post: map<string, string>)
    requires RESERVED <= escaped && pairs != []
    ensures Echoes(escaped, pairs) != []
    ensures var s := Finish(Scan(pre + PrintForm(escaped, pairs), |pre|, |pre|, key, post));
      s.Scanned? && s.post == Image(Echoes(escaped, pairs), post)
    decreases |pairs|
  {
    EchoesAre(escaped, pairs);
    if |pairs| == 1 {
      FinishPair(escaped, pre, pairs[0], key, post);
      assert Echoes(escaped, pairs)[..0] == [];
    } else {
      var q := EchoPair(escaped, pairs[0]);
      ScanNext(escaped, pre, pairs[0], PrintForm(escaped, pairs[1..]), key, post);
      ScanForm(escaped, pre + q.0 + "=" + q.1 + "&", pairs[1..], q.0, post[q.0 := q.1]);
      ImageOfMore(Echoes(escaped, pairs), post);
      assert Echoes(escaped, pairs)[1..] == Echoes(escaped, pairs[1..]);
    }
  }

  lemma ImageOfMore(pairs: Pairs, post: map<string, string>)
    requires |pairs| > 1
    ensures Image(pairs, post) == Image(pairs[1..], post[pairs[0].0 := pairs[0].1])
  {
    assert pairs[..|pairs| - 1][1..] == pairs[1..][..|pairs| - 2];
  }

  /** On every printed list: the image of the echoes of its parts. */
  lemma DecodePrinted(escaped: set<char>, pairs: Pairs, post: map<string, string>)
    requires RESERVED <= escaped && pairs != []
    ensures Echoes(escaped, pairs) != []
    ensures var s := Decode(PrintForm(escaped, pairs), post); s.Scanned? && s.post == Image(Echoes(escaped, pairs), post)
  {
    ScanForm(escaped, "", pairs, "", post);
    assert "" + PrintForm(escaped, pairs) == PrintForm(escaped, pairs);
    assert |PrintPair(escaped, pairs[0])| > 0;
  }

  // ---------------------------------------------------------------- lists as maps

  lemma {:induction false} AsMapSnoc(pairs: Pairs, post: map<string, string>)
    requires pairs != []
    ensures var n := |pairs| - 1;
      AsMap(pairs, post) == AsMap(pairs[..n], post)[pairs[n].0 := pairs[n].1]
    decreases |pairs|
  {
    var n := |pairs| - 1;
    if n > 0 {
      AsMapSnoc(pairs[1..], post[pairs[0].0 := pairs[0].1]);
      assert pairs[..n][1..] == pairs[1..][..n - 1];
    } else {
      assert pairs[1..] == [] && pairs[..0] == [];
    }
  }

  lemma {:induction false} AsMapKeys(pairs: Pairs, post: map<string, string>, key: string)
    requires forall p | p in pairs :: p.0 != key
    ensures key in AsMap(pairs, post) <==> key in post
    ensures key in post ==> AsMap(pairs, post)[key] == post[key]
    decreases |pairs|
  {
    if pairs != [] {
      assert pairs[0] in pairs;
      AsMapKeys(pairs[1..], post[pairs[0].0 := pairs[0].1], key);
    }
  }

  lemma {:induction false} AsMapAt(pairs: Pairs, post: map<string, string>, k: nat)
    requires k < |pairs| && forall i, l | 0 <= i < l < |pairs| :: pairs[i].0 != pairs[l].0
    ensures pairs[k].0 in AsMap(pairs, post) && AsMap(pairs, post)[pairs[k].0] == pairs[k].1
    decreases |pairs|
  {
    var post' := post[pairs[0].0 := pairs[0].1];
    if k == 0 {
      AsMapKeys(pairs[1..], post', pairs[0].0);
    } else {
      AsMapAt(pairs[1..], post', k - 1);
    }
  }

  /** The keys of a list are the keys of its map. */
  lemma {:induction false} KeysOf(pairs: Pairs, key: string)
    ensures key in AsMap(pairs, map[]) <==> exists k | 0 <= k < |pairs| :: pairs[k].0 == key
    decreases |pairs|
  {
    if pairs != [] {
      var n := |pairs| - 1;
      KeysOf(pairs[..n], key);
      AsMapSnoc(pairs, map[]);
      if k :| 0 <= k < n && pairs[..n][k].0 == key {
        assert pairs[k].0 == key;
      }
      if k :| 0 <= k < |pairs| && pairs[k].0 == key && k < n {
        assert pairs[..n][k].0 == key;
      }
    }
  }

  // ---------------------------------------------------------------- when decoding inverts printing

  ghost predicate IsEcho(escaped: set<char>, pairs: Pairs, key: string) {
    exists l | 0 <= l < |pairs| :: key == Echo(escaped, pairs[l].0)
  }

  /** If every key comes back, no key holds anything escaped: its own echo is longer, so a shorter unclean key would
      have to be its source, and so on down. */
  lemma {:induction false} KeysAreClean(escaped: set<char>, pairs: Pairs, i: nat)
    requires i < |pairs|
    requires forall k | 0 <= k < |pairs| :: IsEcho(escaped, pairs, pairs[k].0)
    ensures Clean(escaped, pairs[i].0)
    decreases |pairs[i].0|
  {
    var l :| 0 <= l < |pairs| && pairs[i].0 == Echo(escaped, pairs[l].0);
    if !Clean(escaped, pairs[l].0) {
      KeysAreClean(escaped, pairs, l);
    }
  }

  predicate CleanKeys(escaped: set<char>, pairs: Pairs) {
    forall p | p in pairs :: Clean(escaped, p.0)
  }

  /** With clean keys, the map of the echoes has the same keys, and the echoes of the values. */
  lemma {:induction false} EchoedMap(escaped: set<char>, pairs: Pairs)
    requires CleanKeys(escaped, pairs)
    ensures var kept := AsMap(pairs, map[]); var echoed := AsMap(Echoes(escaped, pairs), map[]);
      kept.Keys == echoed.Keys && forall key | key in kept :: echoed[key] == Echo(escaped, kept[key])
    decreases |pairs|
  {
    if pairs != [] {
      var n := |pairs| - 1;
      EchoesAre(escaped, pairs);
      EchoesAre(escaped, pairs[..n]);
      EchoedMap(escaped, pairs[..n]);
      AsMapSnoc(pairs, map[]);
      AsMapSnoc(Echoes(escaped, pairs), map[]);
      assert Echoes(escaped, pairs)[..n] == Echoes(escaped, pairs[..n]);
      assert pairs[n] in pairs;
    }
  }

  lemma ImageKeys(escaped: set<char>, pairs: Pairs, key: string)
    requires pairs != [] && Echoes(escaped, pairs) != []
    requires key in Image(Echoes(escaped, pairs), map[])
    ensures IsEcho(escaped, pairs, key)
  {
    EchoesAre(escaped, pairs);
    var echoes := Echoes(escaped, pairs);
    var n := |pairs| - 1;
    if key == echoes[n].0 {
      assert key == Echo(escaped, pairs[n].0);
    } else {
      KeysOf(echoes[..n], key);
      var l :| 0 <= l < n && echoes[..n][l].0 == key;
      assert key == Echo(escaped, pairs[l].0);
    }
  }

  /** What must hold of the pairs: no key and no surviving value of an earlier key holds anything escaped, and the
      last pair is new, clean and not empty, or repeats what its key came back with. */
  ghost predicate ComesBack(escaped: set<char>, pairs: Pairs)
    requires pairs != []
  {
    var last := pairs[|pairs| - 1];
    var earlier := AsMap(pairs[..|pairs| - 1], map[]);
    && CleanKeys(escaped, pairs)
    && (forall key | key in earlier && key != last.0 :: Clean(escaped, earlier[key]))
    && if last.0 in earlier then Echo(escaped, earlier[last.0]) == last.1
       else last.1 != "" && Clean(escaped, last.1)
  }

  /** For every list of pairs and every set of characters the sender escapes: exactly when the decoder gives the
      pairs back. */
  lemma DecodeInvertsPrintIff(escaped: set<char>, pairs: Pairs)
    requires RESERVED <= escaped && pairs != []
    ensures var s := Decode(PrintForm(escaped, pairs), map[]);
      s.Scanned? && (s.post == AsMap(pairs, map[]) <==> ComesBack(escaped, pairs))
  {
    DecodePrinted(escaped, pairs, map[]);
    if Image(Echoes(escaped, pairs), map[]) == AsMap(pairs, map[]) {
      KeysComeBackClean(escaped, pairs);
    }
    if CleanKeys(escaped, pairs) {
      ImageIff(escaped, pairs);
    }
  }

  lemma KeysComeBackClean(escaped: set<char>, pairs: Pairs)
    requires pairs != [] && Echoes(escaped, pairs) != []
    requires Image(Echoes(escaped, pairs), map[]) == AsMap(pairs, map[])
    ensures CleanKeys(escaped, pairs)
  {
    forall k | 0 <= k < |pairs|
      ensures IsEcho(escaped, pairs, pairs[k].0)
    {
      KeysOf(pairs, pairs[k].0);
      ImageKeys(escaped, pairs, pairs[k].0);
    }
    forall p | p in pairs
      ensures Clean(escaped, p.0)
    {
      var i :| 0 <= i < |pairs| && pairs[i] == p;
      KeysAreClean(escaped, pairs, i);
    }
  }

  lemma ImageIff(escaped: set<char>, pairs: Pairs)
    requires pairs != [] && CleanKeys(escaped, pairs) && Echoes(escaped, pairs) != []
    ensures Image(Echoes(escaped, pairs), map[]) == AsMap(pairs, map[]) <==> ComesBack(escaped, pairs)
  {
    var n := |pairs| - 1;
    var last := pairs[n];
    var earlier := AsMap(pairs[..n], map[]);
    EchoesAre(escaped, pairs);
    EchoesAre(escaped, pairs[..n]);
    assert Echoes(escaped, pairs)[..n] == Echoes(escaped, pairs[..n]);
    EchoedMap(escaped, pairs[..n]);
    AsMapSnoc(pairs, map[]);
    assert last in pairs;
    ImageOfMaps(escaped, earlier, AsMap(Echoes(escaped, pairs[..n]), map[]), last);
  }

  lemma ImageOfMaps(
      escaped: set<char>, earlier: map<string, string>, echoed: map<string, string>, last: (string, string))
    requires earlier.Keys == echoed.Keys && forall key | key in earlier :: echoed[key] == Echo(escaped, earlier[key])
    ensures var value := Echo(escaped, last.1);
      (if last.0 !in echoed && value != "" then echoed[last.0 := value] else echoed) == earlier[last.0 := last.1] <==>
      && (forall key | key in earlier && key != last.0 :: Clean(escaped, earlier[key]))
      && if last.0 in earlier then Echo(escaped, earlier[last.0]) == last.1 else last.1 != "" && Clean(escaped, last.1)
  {
    var value := Echo(escaped, last.1);
    var image := if last.0 !in echoed && value != "" then echoed[last.0 := value] else echoed;
    var all := earlier[last.0 := last.1];
    forall key | key in earlier && key != last.0
      ensures key in image && key in all && (image[key] == all[key] <==> Clean(escaped, earlier[key]))
    {
    }
    if image == all {
      assert last.0 in image && image[last.0] == last.1;
    }
  }

  /** The case a browser sends, distinct keys and a non-empty last value: the pairs come back exactly when nothing
      in them was sent as an escape. */
  lemma DistinctPairsComeBackIff(escaped: set<char>, pairs: Pairs)
    requires RESERVED <= escaped && pairs != [] && pairs[|pairs| - 1].1 != ""
    requires forall i, k | 0 <= i < k < |pairs| :: pairs[i].0 != pairs[k].0
    ensures var s := Decode(PrintForm(escaped, pairs), map[]);
      s.Scanned? && (s.post == AsMap(pairs, map[]) <==> CleanPairs(escaped, pairs))
    ensures forall p | p in pairs :: p.0 in AsMap(pairs, map[]) && AsMap(pairs, map[])[p.0] == p.1
  {
    DecodeInvertsPrintIff(escaped, pairs);
    ValuesOf(pairs);
    if CleanPairs(escaped, pairs) {
      CleanPairsComeBack(escaped, pairs);
    }
    if ComesBack(escaped, pairs) {
      OnlyCleanPairsComeBack(escaped, pairs);
    }
  }

  lemma CleanPairsComeBack(escaped: set<char>, pairs: Pairs)
    requires pairs != [] && pairs[|pairs| - 1].1 != "" && CleanPairs(escaped, pairs)
    requires forall i, k | 0 <= i < k < |pairs| :: pairs[i].0 != pairs[k].0
    ensures ComesBack(escaped, pairs)
  {
    var n := |pairs| - 1;
    AsMapKeys(pairs[..n], map[], pairs[n].0);
    ValuesOf(pairs[..n]);
    assert pairs[n] in pairs;
  }

  lemma OnlyCleanPairsComeBack(escaped: set<char>, pairs: Pairs)
    requires pairs != [] && ComesBack(escaped, pairs)
    requires forall i, k | 0 <= i < k < |pairs| :: pairs[i].0 != pairs[k].0
    ensures CleanPairs(escaped, pairs)
  {
    var n := |pairs| - 1;
    AsMapKeys(pairs[..n], map[], pairs[n].0);
    ValuesOf(pairs[..n]);
    forall k | 0 <= k < |pairs|
      ensures Clean(escaped, pairs[k].0) && Clean(escaped, pairs[k].1)
    {
      assert pairs[k] in pairs;
      assert k < n ==> pairs[..n][k] == pairs[k];
    }
  }

  /** The map of a list with distinct keys holds exactly its pairs. */
  lemma ValuesOf(pairs: Pairs)
    requires forall i, k | 0 <= i < k < |pairs| :: pairs[i].0 != pairs[k].0
    ensures forall k | 0 <= k < |pairs| :: pairs[k].0 in AsMap(pairs, map[]) && AsMap(pairs, map[])[pairs[k].0] == pairs[k].1
    ensures forall key | key in AsMap(pairs, map[]) :: (key, AsMap(pairs, map[])[key]) in pairs
  {
    forall k | 0 <= k < |pairs|
      ensures pairs[k].0 in AsMap(pairs, map[]) && AsMap(pairs, map[])[pairs[k].0] == pairs[k].1
    {
      AsMapAt(pairs, map[], k);
    }
    forall key | key in AsMap(pairs, map[])
      ensures (key, AsMap(pairs, map[])[key]) in pairs
    {
      KeysOf(pairs, key);
      var k :| 0 <= k < |pairs| && pairs[k].0 == key;
      assert pairs[k] == (key, AsMap(pairs, map[])[key]);
    }
  }

  /** An escaped letter does not come back as the letter. */
  lemma EscapeIsNotDecoded()
    ensures Decode("a=%41", map[]).Scanned? && Decode("a=%41", map[]).post != map["a" := "A"]
  {
  }
}
