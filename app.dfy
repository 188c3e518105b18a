/**
 * The request path of the CV-anonymiser Lambda (lambda/app.py): the
 * `/health` and `/anonymise` handlers with the SSM fetch, the clock, the
 * UUID and the DynamoDB table turned into inputs and state.
 */
module App {
  import opened Wrappers
  import opened Json
  import opened PyStr
  import Utf8
  import Hex

  type Byte = Utf8.Byte

  /** One DynamoDB item: attribute name to value. */
  type Item = map<string, Value>

  const MissingText: string := "Missing 'text' field"
  const DefaultSalt: string := "demo-salt"
  const AtToken: string := "[at]"
  /** Seven days, in seconds. */
  const RetentionSeconds: nat := 7 * 24 * 60 * 60

  // ---------------------------------------------------------------- health

  /** `GET /health`. */
  function Health(): (r: Value)
    ensures r.Object? && r.fields.Keys == {"ok"} && r.fields["ok"] == Bool(true)
  {
    Object(map["ok" := Bool(true)])
  }

  // ------------------------------------------------------------ validation

  /** `(payload or {}).get("text", "")`: a missing or empty payload reads as `{}`. */
  function TextField(payload: Option<map<string, Value>>): Value
  {
    var fields := if payload.Some? then payload.value else map[];
    if "text" in fields then fields["text"] else String("")
  }

  /**
   * The text that passes `isinstance(text, str) and text.strip()`, or
   * None when the handler answers with the missing-text error.
   */
  function AcceptedText(payload: Option<map<string, Value>>): (r: Option<string>)
    ensures r.Some? ==> TextField(payload) == String(r.value)
  {
    var v := TextField(payload);
    if !v.String? || Strip(v.s) == [] then None else Some(v.s)
  }

  /** The payload carries a `text` string with at least one non-whitespace character. */
  predicate HasText(payload: Option<map<string, Value>>) {
    && payload.Some?
    && "text" in payload.value
    && payload.value["text"].String?
    && !AllSpace(payload.value["text"].s)
  }

  /**
   * Validation accepts exactly the payloads that carry a non-blank `text`
   * string, and then hands on that string unchanged.
   */
  lemma AcceptedTextIff(payload: Option<map<string, Value>>)
    ensures AcceptedText(payload).Some? <==> HasText(payload)
    ensures HasText(payload) ==> AcceptedText(payload) == Some(payload.value["text"].s)
  {
    assert AllSpace("");
  }

  // ------------------------------------------------------------ rules

  /** `rules.get("salt", "demo-salt")`: any JSON value the document holds under `salt`. */
  function SaltOf(rules: map<string, Value>): Value
  {
    if "salt" in rules then rules["salt"] else String(DefaultSalt)
  }

  /** `rules.get("redact", [])`. */
  function RulesApplied(rules: map<string, Value>): Value
  {
    if "redact" in rules then rules["redact"] else Array([])
  }

  // ------------------------------------------------------------ redaction

  /** `text.replace("@", "[at]")`. */
  function Redact(text: string): string
  {
    Replace(text, "@", AtToken)
  }

  /** What one input character becomes in the redacted text. */
  function Expand(c: char): (r: string)
    ensures '@' !in r
  {
    if c == '@' then AtToken else [c]
  }

  /** Reference definition: every character expanded on its own, in order. */
  function ExpandEach(s: string): string
    decreases |s|
  {
    if s == [] then [] else Expand(s[0]) + ExpandEach(s[1..])
  }

  /** Replacing the one-character pattern `@` is the same as expanding each character. */
  lemma {:induction false} RedactIsExpandEach(s: string)
    ensures Redact(s) == ExpandEach(s)
    decreases |s|
  {
    if s != [] {
      assert s[..1] == "@" <==> s[0] == '@';
      RedactIsExpandEach(s[1..]);
    }
  }

  lemma {:induction false} ExpandEachConcat(a: string, b: string)
    ensures ExpandEach(a + b) == ExpandEach(a) + ExpandEach(b)
    decreases |a|
  {
    if a == [] {
      assert a + b == b;
    } else {
      assert (a + b)[0] == a[0] && (a + b)[1..] == a[1..] + b;
      ExpandEachConcat(a[1..], b);
    }
  }

  lemma {:induction false} ExpandEachNoAt(s: string)
    ensures '@' !in ExpandEach(s)
    decreases |s|
  {
    if s != [] { ExpandEachNoAt(s[1..]); }
  }

  lemma {:induction false} ExpandEachIdentity(s: string)
    requires '@' !in s
    ensures ExpandEach(s) == s
    decreases |s|
  {
    if s != [] {
      assert s == [s[0]] + s[1..];
      ExpandEachIdentity(s[1..]);
    }
  }

  lemma {:induction false} ExpandEachLength(s: string)
    ensures |ExpandEach(s)| == |s| + 3 * Count(s, '@')
    decreases |s|
  {
    if s != [] { ExpandEachLength(s[1..]); }
  }

  /** The redacted text holds no `@`. */
  lemma RedactNoAt(s: string)
    ensures '@' !in Redact(s)
  {
    RedactIsExpandEach(s);
    ExpandEachNoAt(s);
  }

  /** Each `@` makes the text 3 characters longer; nothing else changes its length. */
  lemma RedactLength(s: string)
    ensures |Redact(s)| == |s| + 3 * Count(s, '@')
  {
    RedactIsExpandEach(s);
    ExpandEachLength(s);
  }

  /** Redaction leaves a text unchanged exactly when it has no `@`. */
  lemma RedactUnchangedIff(s: string)
    ensures Redact(s) == s <==> '@' !in s
  {
    RedactLength(s);
    if '@' !in s {
      RedactIsExpandEach(s);
      ExpandEachIdentity(s);
    }
  }

  /** Redacting twice is redacting once. */
  lemma RedactIdempotent(s: string)
    ensures Redact(Redact(s)) == Redact(s)
  {
    RedactNoAt(s);
    RedactUnchangedIff(Redact(s));
  }

  /** Redaction works independently on the parts of a concatenation. */
  lemma RedactConcat(a: string, b: string)
    ensures Redact(a + b) == Redact(a) + Redact(b)
  {
    RedactIsExpandEach(a + b);
    RedactIsExpandEach(a);
    RedactIsExpandEach(b);
    ExpandEachConcat(a, b);
  }

  /**
   * Character `i` of the input reappears, expanded, at offset `i` plus 3
   * for every `@` before it: the non-`@` characters keep their order.
   */
  lemma RedactPlacement(s: string, i: nat)
    requires i < |s|
    ensures var o := i + 3 * Count(s[..i], '@');
            && o + |Expand(s[i])| <= |Redact(s)|
            && Redact(s)[o..o + |Expand(s[i])|] == Expand(s[i])
  {
    var pre, post := s[..i], s[i + 1..];
    assert s == pre + ([s[i]] + post);
    RedactConcat(pre, [s[i]] + post);
    RedactConcat([s[i]], post);
    RedactLength(pre);
    RedactIsExpandEach([s[i]]);
    assert ExpandEach([s[i]]) == Expand(s[i]) + ExpandEach([]);
  }

  /** Redaction loses information: a literal `[at]` and an `@` redact alike. */
  lemma RedactNotInjective()
    ensures Redact("@") == Redact("[at]") == "[at]"
  {
    RedactIsExpandEach("@");
    RedactIsExpandEach("[at]");
    assert "[at]"[1..] == "at]";
    assert "at]"[1..] == "t]";
    assert "t]"[1..] == "]";
    assert "]"[1..] == "";
  }

  // ------------------------------------------------------------ commitment

  /** `(salt + text).encode("utf-8")`: what the digest is computed over. */
  function HashInput(salt: string, text: string): seq<Byte>
  {
    Utf8.Encode(salt + text)
  }

  /** The hash input is the salt's encoding followed by the original text's. */
  lemma HashInputSplit(salt: string, text: string)
    ensures HashInput(salt, text) == Utf8.Encode(salt) + Utf8.Encode(text)
  {
    Utf8.EncodeConcat(salt, text);
  }

  /** Under one salt, different texts give different hash inputs. */
  lemma HashInputBindsText(salt: string, t1: string, t2: string)
    requires HashInput(salt, t1) == HashInput(salt, t2)
    ensures t1 == t2
  {
    Utf8.EncodeInjective(salt + t1, salt + t2);
    assert t1 == (salt + t1)[|salt|..];
    assert t2 == (salt + t2)[|salt|..];
  }

  /** For one text, different salts give different hash inputs. */
  lemma HashInputBindsSalt(s1: string, s2: string, text: string)
    requires HashInput(s1, text) == HashInput(s2, text)
    ensures s1 == s2
  {
    Utf8.EncodeInjective(s1 + text, s2 + text);
    assert s1 == (s1 + text)[..|s1|];
    assert s2 == (s2 + text)[..|s2|];
  }

  /** Without a separator, a pair (salt, text) is not recoverable from the hash input. */
  lemma HashInputAmbiguous()
    ensures HashInput("a", "bc") == HashInput("ab", "c")
  {
    assert "a" + "bc" == "ab" + "c";
  }

  /** `hashlib.sha256(...).hexdigest()`, for a given SHA-256 function. */
  function CvHash(sha256: seq<Byte> -> seq<Byte>, salt: string, text: string): string
  {
    Hex.Encode(sha256(HashInput(salt, text)))
  }

  /**
   * A 32-byte digest renders as 64 lower-case hex digits from which the
   * digest can be read back.
   */
  lemma CvHashShape(sha256: seq<Byte> -> seq<Byte>, salt: string, text: string)
    requires |sha256(HashInput(salt, text))| == 32
    ensures |CvHash(sha256, salt, text)| == 64
    ensures forall k :: 0 <= k < 64 ==> Hex.IsLowerHexDigit(CvHash(sha256, salt, text)[k])
    ensures Hex.Decode(CvHash(sha256, salt, text)) == Some(sha256(HashInput(salt, text)))
  {
    Hex.EncodeDigits(sha256(HashInput(salt, text)));
    Hex.DecodeEncode(sha256(HashInput(salt, text)));
  }

  // ------------------------------------------------------------ audit item

  /** `now + 7 * 24 * 60 * 60`. */
  function ExpiresAt(now: int): (ttl: int)
    ensures ttl > now && ttl - now == 604800
  {
    now + RetentionSeconds
  }

  /** The item `put_item` writes: metadata and the salted hash, never the text. */
  function AuditItem(requestId: string, now: int, cvHash: string, rulesApplied: Value): (item: Item)
    ensures item.Keys == {"requestId", "createdAt", "ttl", "cvHash", "rulesApplied"}
  {
    map[
      "requestId" := String(requestId),
      "createdAt" := Number(now),
      "ttl" := Number(ExpiresAt(now)),
      "cvHash" := String(cvHash),
      "rulesApplied" := rulesApplied
    ]
  }

  // ------------------------------------------------------------ the handler

  /** The exceptions that can escape `anonymise` in the modelled code. */
  datatype Exception =
    | AttributeError  // the rules document is not a JSON object, so it has no `.get`
    | TypeError       // `salt + text` with a salt that is not a string

  /** What the handler function hands back to the framework. */
  datatype Reply =
    | Returned(body: Value)                    // `return {...}`
    | ReturnedWithStatus(body: Value, status: int)  // `return {...}, 400`
    | Raised(error: Exception)

  /** A call's reply, whether the rules were fetched, and the item written, if any. */
  datatype Effects = Effects(reply: Reply, fetchedRules: bool, written: Option<Item>)

  function MissingTextReply(): Reply {
    ReturnedWithStatus(Object(map["error" := String(MissingText)]), 400)
  }

  function SuccessBody(requestId: string, redacted: string): Value {
    Object(map["requestId" := String(requestId), "anonymisedText" := String(redacted)])
  }

  /**
   * `POST /anonymise`, step by step as the source orders it: validate,
   * fetch and read the rules, redact, hash, write the audit item, reply.
   * `document` is what `json.loads` makes of the SSM parameter, `requestId`
   * is `str(uuid.uuid4())` and `now` is `int(time.time())`.
   */
  function AnonymiseEffects(payload: Option<map<string, Value>>, document: Value, requestId: string,
                            now: nat, sha256: seq<Byte> -> seq<Byte>): Effects
  {
    match AcceptedText(payload)
    case None => Effects(MissingTextReply(), false, None)
    case Some(text) =>
      if !document.Object? then Effects(Raised(AttributeError), true, None)
      else
        var rules := document.fields;
        match SaltOf(rules)
        case String(salt) =>
          var item := AuditItem(requestId, now, CvHash(sha256, salt, text), RulesApplied(rules));
          Effects(Returned(SuccessBody(requestId, Redact(text))), true, Some(item))
        case _ => Effects(Raised(TypeError), true, None)
  }

  /**
   * The handler answers with the missing-text pair exactly when the
   * payload has no usable text, and then neither fetches rules nor writes.
   */
  lemma RejectionIff(payload: Option<map<string, Value>>, document: Value, requestId: string,
                     now: nat, sha256: seq<Byte> -> seq<Byte>)
    ensures var e := AnonymiseEffects(payload, document, requestId, now, sha256);
            && (e.reply == MissingTextReply() <==> !HasText(payload))
            && (e.fetchedRules <==> HasText(payload))
            && (!HasText(payload) ==> e.written == None)
  {
    AcceptedTextIff(payload);
  }

  /** An item is written exactly when the handler returns normally. */
  lemma WrittenIffReturned(payload: Option<map<string, Value>>, document: Value, requestId: string,
                           now: nat, sha256: seq<Byte> -> seq<Byte>)
    ensures var e := AnonymiseEffects(payload, document, requestId, now, sha256);
            e.written.Some? <==> e.reply.Returned?
  {
  }

  /**
   * An exception escapes exactly when the text is accepted but the rules
   * document is not an object, or its `salt` entry is not a string.
   */
  lemma RaisedIff(payload: Option<map<string, Value>>, document: Value, requestId: string,
                  now: nat, sha256: seq<Byte> -> seq<Byte>)
    ensures var e := AnonymiseEffects(payload, document, requestId, now, sha256);
            && (e.reply == Raised(AttributeError) <==> HasText(payload) && !document.Object?)
            && (e.reply == Raised(TypeError) <==>
                  HasText(payload) && document.Object? && !SaltOf(document.fields).String?)
  {
    AcceptedTextIff(payload);
  }

  /**
   * On success the reply carries exactly `requestId` and `anonymisedText`;
   * the id is the audit item's, the text is the redacted original, and the
   * item holds the salted hash of the original text, the creation time, an
   * expiry one week later and the configured rule list.
   */
  lemma SuccessContract(payload: Option<map<string, Value>>, document: Value, requestId: string,
                        now: nat, sha256: seq<Byte> -> seq<Byte>)
    requires AnonymiseEffects(payload, document, requestId, now, sha256).reply.Returned?
    ensures HasText(payload) && document.Object? && SaltOf(document.fields).String?
    ensures var e := AnonymiseEffects(payload, document, requestId, now, sha256);
            var text, rules := payload.value["text"].s, document.fields;
            var body, item := e.reply.body, e.written.value;
            && body.Object?
            && body.fields.Keys == {"requestId", "anonymisedText"}
            && body.fields["requestId"] == item["requestId"] == String(requestId)
            && body.fields["anonymisedText"] == String(Redact(text))
            && '@' !in Redact(text)
            && item.Keys == {"requestId", "createdAt", "ttl", "cvHash", "rulesApplied"}
            && item["cvHash"] == String(CvHash(sha256, SaltOf(rules).s, text))
            && item["createdAt"] == Number(now)
            && item["ttl"] == Number(now + 604800)
            && item["rulesApplied"] == RulesApplied(rules)
  {
    AcceptedTextIff(payload);
    RedactNoAt(payload.value["text"].s);
  }

  /**
   * The audit item depends on the text only through the digest: two texts
   * whose salted inputs hash alike leave identical items.
   */
  lemma ItemDependsOnlyOnDigest(p1: Option<map<string, Value>>, p2: Option<map<string, Value>>,
                                document: Value, requestId: string, now: nat,
                                sha256: seq<Byte> -> seq<Byte>)
    requires HasText(p1) && HasText(p2) && document.Object? && SaltOf(document.fields).String?
    requires var salt := SaltOf(document.fields).s;
             sha256(HashInput(salt, p1.value["text"].s)) == sha256(HashInput(salt, p2.value["text"].s))
    ensures AnonymiseEffects(p1, document, requestId, now, sha256).written
         == AnonymiseEffects(p2, document, requestId, now, sha256).written
  {
    AcceptedTextIff(p1);
    AcceptedTextIff(p2);
  }

  /**
   * A rules object without `salt` or `redact` entries: the text is hashed
   * under `demo-salt` and the item records an empty rule list.
   */
  lemma DefaultRules(text: string, requestId: string, now: nat, sha256: seq<Byte> -> seq<Byte>)
    requires !AllSpace(text)
    ensures AnonymiseEffects(Some(map["text" := String(text)]), Object(map[]), requestId, now, sha256)
         == Effects(Returned(SuccessBody(requestId, Redact(text))), true,
                    Some(AuditItem(requestId, now, CvHash(sha256, DefaultSalt, text), Array([]))))
  {
    AcceptedTextIff(Some(map["text" := String(text)]));
  }

  /** `a@b.io` redacts to `a[at]b.io`. */
  lemma ExampleRedaction()
    ensures Redact("a@b.io") == "a[at]b.io"
  {
    assert "a@b.io" == "a" + ("@" + "b.io");
    RedactConcat("a", "@" + "b.io");
    RedactConcat("@", "b.io");
    RedactUnchangedIff("a");
    RedactUnchangedIff("b.io");
    RedactIsExpandEach("@");
  }

  /** `{"text": "   "}` is rejected. */
  lemma ExampleBlankText(document: Value, sha256: seq<Byte> -> seq<Byte>)
    ensures AnonymiseEffects(Some(map["text" := String("   ")]), document, "id-1", 0, sha256).reply
         == MissingTextReply()
  {
    var p := Some(map["text" := String("   ")]);
    AcceptedTextIff(p);
  }

  // ------------------------------------------------------------ the service

  /**
   * The deployed function: its configuration, the SSM parameter names it
   * has asked for, in order, and the audit table's items by `requestId`.
   */
  class Service {
    const rulesParamName: string
    const auditTableName: string
    const sha256: seq<Byte> -> seq<Byte>
    var fetchLog: seq<string>
    var auditTable: map<string, Item>

    /** Module start-up: the two environment variables and the table as found. */
    constructor (rulesParamName: string, auditTableName: string, sha256: seq<Byte> -> seq<Byte>,
                 table: map<string, Item>)
      ensures this.rulesParamName == rulesParamName && this.auditTableName == auditTableName
      ensures this.sha256 == sha256
      ensures fetchLog == [] && auditTable == table
    {
      this.rulesParamName := rulesParamName;
      this.auditTableName := auditTableName;
      this.sha256 := sha256;
      fetchLog := [];
      auditTable := table;
    }

    /**
     * `POST /anonymise`. `document` is the parsed value of the SSM
     * parameter this call would fetch; `requestId` and `now` are the UUID
     * and the clock reading.
     */
    method Anonymise(payload: Option<map<string, Value>>, document: Value, requestId: string, now: nat)
      returns (reply: Reply)
      modifies this
      ensures var e := AnonymiseEffects(payload, document, requestId, now, sha256);
              && reply == e.reply
              && fetchLog == old(fetchLog) + (if e.fetchedRules then [rulesParamName] else [])
              && auditTable == (if e.written.Some? then old(auditTable)[requestId := e.written.value]
                                else old(auditTable))
    {
      var accepted := AcceptedText(payload);
      if accepted.None? {
        reply := MissingTextReply();
        return;
      }
      var text := accepted.value;

      fetchLog := fetchLog + [rulesParamName];
      if !document.Object? {
        reply := Raised(AttributeError);
        return;
      }
      var rules := document.fields;
      var salt := SaltOf(rules);

      var redacted := Redact(text);

      if !salt.String? {
        reply := Raised(TypeError);
        return;
      }
      var digest := CvHash(sha256, salt.s, text);

      var item := AuditItem(requestId, now, digest, RulesApplied(rules));
      auditTable := auditTable[requestId := item];

      reply := Returned(SuccessBody(requestId, redacted));
    }
  }
}
