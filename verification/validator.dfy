/** `validation.py`: `validator_llm`, which loads the rules text, asks the
    text model to judge an extracted record against it, and reduces the
    reply to a verdict with three fixed keys. The model call, file access,
    `json.loads`, `json.dumps` and Python's repr are fields of `Services`;
    the fixed instruction text is the `instructions` parameter. */
module Validator {
  import opened Results
  import opened Text
  import opened JsonSpan
  import opened Json

  /** The keys of the verdict, in the order they are checked and stored. */
  const ExpectedKeys: seq<string> := ["Product description", "purchase_date", "quantity"]

  /** The returned dict as its ordered items: Python dicts keep insertion
      order. */
  type Verdict = seq<(string, string)>

  datatype Services = Services(
    /** `os.path.exists(path)` */
    pathExists: string -> bool,
    /** `open(path, "r", encoding="utf-8").read()`, or what it raises. */
    readText: string -> Result<string>,
    /** `llm.invoke([HumanMessage(...)]).content`, or what it raises. */
    invoke: string -> Result<string>,
    /** `json.loads(text)` on a text that starts with '{'. */
    parseJson: string -> Result<JsonObject>,
    /** `json.dumps(record, indent=2)` */
    dumps: JsonObject -> string,
    /** Python's repr of a number, list or dict. */
    repr: Json -> string)

  // ---------------------------------------------------------------------
  // Step 1: the rules text
  // ---------------------------------------------------------------------

  /** Reads and strips the rules file; a missing path raises
      `FileNotFoundError`, and a file holding only whitespace raises
      `ValueError`. */
  function LoadGuidelines(svc: Services, path: string): (r: Result<string>)
    ensures !svc.pathExists(path) ==> r == Err(FileNotFoundError("Guidelines file not found: " + path))
    ensures svc.pathExists(path) && svc.readText(path).Err? ==> r == Err(svc.readText(path).error)
    ensures svc.pathExists(path) && svc.readText(path).Ok? ==>
              if AllSpace(svc.readText(path).value)
              then r == Err(ValueError("Guidelines file is empty"))
              else r == Ok(Strip(svc.readText(path).value))
    ensures r.Ok? ==> r.value != "" && !IsSpace(r.value[0]) && !IsSpace(r.value[|r.value| - 1])
  {
    if !svc.pathExists(path) then Err(FileNotFoundError("Guidelines file not found: " + path))
    else
      match svc.readText(path)
      case Err(e) => Err(e)
      case Ok(text) =>
        var guidelinesText := Strip(text);
        if guidelinesText == "" then Err(ValueError("Guidelines file is empty"))
        else Ok(guidelinesText)
  }

  // ---------------------------------------------------------------------
  // Step 2: the prompt
  // ---------------------------------------------------------------------

  /** The prompt: the fixed instructions, then the rules text, then the
      serialised record. */
  function ValidationPrompt(instructions: string, guidelines: string, recordJson: string): string {
    instructions + "Rules:\n" + guidelines + "\n\nExtracted Data:\n" + recordJson + "\n"
  }

  // ---------------------------------------------------------------------
  // Step 4: the JSON object in the reply
  // ---------------------------------------------------------------------

  /** The message of the `ValueError` raised for a span `json.loads`
      rejects: the decoder's message and the span. */
  function ParseFailure(decoderMessage: string, span: string): Error {
    ValueError("Failed to parse JSON from validator LLM response: " + decoderMessage
               + "\nResponse was:\n" + span)
  }

  /** Strips the reply, takes the span from its first '{' to its last '}'
      and parses it. No span raises `ValueError` with the stripped reply; a
      `JSONDecodeError` becomes a `ValueError` carrying the span; any other
      exception passes through. */
  function ParseVerdictReply(svc: Services, reply: string): (r: Result<JsonObject>)
    ensures SearchJson(reply).None? ==>
              r == Err(ValueError("No JSON object found in validator LLM response:\n" + Strip(reply)))
    ensures SearchJson(reply).Some? && svc.parseJson(SearchJson(reply).value).Err? ==>
              var e := svc.parseJson(SearchJson(reply).value).error;
              r == Err(if e.JsonDecodeError? then ParseFailure(e.message, SearchJson(reply).value) else e)
    ensures r.Ok? ==> SearchJson(reply).Some? && svc.parseJson(SearchJson(reply).value) == Ok(r.value)
    ensures SearchJson(reply).Some? && svc.parseJson(SearchJson(reply).value).Ok? ==>
              r == svc.parseJson(SearchJson(reply).value)
  {
    var raw := Strip(reply);
    SearchJsonAfterStrip(reply);
    match SearchJson(raw)
    case None => Err(ValueError("No JSON object found in validator LLM response:\n" + raw))
    case Some(resultJsonStr) =>
      match svc.parseJson(resultJsonStr)
      case Ok(result) => Ok(result)
      case Err(JsonDecodeError(m)) => Err(ParseFailure(m, resultJsonStr))
      case Err(e) => Err(e)
  }

  // ---------------------------------------------------------------------
  // Step 5: the three-key verdict
  // ---------------------------------------------------------------------

  /** The `ValueError` for a key the reply lacks; it names the key and
      prints the parsed reply. */
  function MissingKey(key: string, result: JsonObject, repr: Json -> string): Error {
    ValueError("Key '" + key + "' missing in validator response JSON: " + PyStr(JObject(result), repr))
  }

  /** What the loop over the keys ends with: the first key the reply
      lacks, or every key paired with its converted value. */
  datatype Projection = Missing(key: string) | Projected(verdict: Verdict)

  /** The loop over `keys[from..]`: every key must be present, the first
      absent one stops the loop, and each present value is converted with
      `conv`. */
  function ProjectKeys(result: JsonObject, keys: seq<string>, from: nat, conv: Json -> string): (r: Projection)
    requires from <= |keys|
    decreases |keys| - from
    ensures r.Projected? <==> forall i :: from <= i < |keys| ==> keys[i] in result
    ensures r.Projected? ==> |r.verdict| == |keys| - from
    ensures r.Projected? ==> forall i :: from <= i < |keys| ==>
                               keys[i] in result && r.verdict[i - from] == (keys[i], conv(result[keys[i]]))
  {
    if from == |keys| then Projected([])
    else if keys[from] !in result then Missing(keys[from])
    else
      match ProjectKeys(result, keys, from + 1, conv)
      case Missing(key) => Missing(key)
      case Projected(rest) =>
        var verdict := [(keys[from], conv(result[keys[from]]))] + rest;
        assert forall k :: 1 <= k < |verdict| ==> verdict[k] == rest[k - 1];
        Projected(verdict)
  }

  /** The key the loop stops at is the first one, in the order given,
      that the reply lacks. */
  lemma {:induction false} ProjectKeysStopsAtFirstMissing(result: JsonObject, keys: seq<string>, from: nat, conv: Json -> string)
    requires from <= |keys|
    requires ProjectKeys(result, keys, from, conv).Missing?
    decreases |keys| - from
    ensures exists i :: && from <= i < |keys|
                        && keys[i] !in result
                        && (forall j :: from <= j < i ==> keys[j] in result)
                        && ProjectKeys(result, keys, from, conv).key == keys[i]
  {
    var r := ProjectKeys(result, keys, from, conv);
    if keys[from] in result {
      var rest := ProjectKeys(result, keys, from + 1, conv);
      assert rest.Missing? && r == rest;
      ProjectKeysStopsAtFirstMissing(result, keys, from + 1, conv);
      var i :| && from + 1 <= i < |keys|
                && keys[i] !in result
                && (forall j :: from + 1 <= j < i ==> keys[j] in result)
                && rest.key == keys[i];
      assert forall j :: from <= j < i ==> keys[j] in result;
    } else {
      assert r.key == keys[from];
    }
  }

  /** `str(value).strip()` */
  function StrippedStr(repr: Json -> string): Json -> string {
    v => Strip(PyStr(v, repr))
  }

  /** The verdict: exactly the three expected keys, in order, each with
      its value printed and stripped. The keys are checked in order and the
      first one missing is the one the `ValueError` names. */
  function Normalize(result: JsonObject, repr: Json -> string): (r: Result<Verdict>)
    ensures r.Ok? <==> "Product description" in result && "purchase_date" in result && "quantity" in result
    ensures r.Ok? ==> |r.value| == 3
    ensures r.Ok? ==> forall i :: 0 <= i < 3 ==>
                        ExpectedKeys[i] in result
                        && r.value[i] == (ExpectedKeys[i], Strip(PyStr(result[ExpectedKeys[i]], repr)))
    ensures "Product description" !in result ==>
              r == Err(MissingKey("Product description", result, repr))
    ensures "Product description" in result && "purchase_date" !in result ==>
              r == Err(MissingKey("purchase_date", result, repr))
    ensures "Product description" in result && "purchase_date" in result && "quantity" !in result ==>
              r == Err(MissingKey("quantity", result, repr))
  {
    var keys := ExpectedKeys;
    assert keys[0] == "Product description" && keys[1] == "purchase_date" && keys[2] == "quantity";
    match ProjectKeys(result, keys, 0, StrippedStr(repr))
    case Missing(key) =>
      ProjectKeysStopsAtFirstMissing(result, keys, 0, StrippedStr(repr));
      Err(MissingKey(key, result, repr))
    case Projected(verdict) => Ok(verdict)
  }

  /** Keys of the reply other than the three are dropped: adding one
      changes nothing in a verdict. */
  lemma ExtraKeysAreDropped(result: JsonObject, key: string, value: Json, repr: Json -> string)
    requires key !in ExpectedKeys
    requires Normalize(result, repr).Ok?
    ensures Normalize(result[key := value], repr) == Normalize(result, repr)
  {
    var r1, r2 := Normalize(result, repr).value, Normalize(result[key := value], repr);
    assert forall i :: 0 <= i < 3 ==> ExpectedKeys[i] != key && ExpectedKeys[i] in result;
    assert r2.Ok?;
    forall i | 0 <= i < 3 ensures r2.value[i] == r1[i] {
      assert result[key := value][ExpectedKeys[i]] == result[ExpectedKeys[i]];
    }
    assert r2.value == r1;
  }

  /** The verdict values are whatever the model wrote, stripped; nothing
      checks them for `True`/`False`. A string value that is already
      stripped is kept as it is, and a JSON boolean prints as Python's
      `True` or `False`. */
  lemma VerdictValuesAreNotChecked(result: JsonObject, repr: Json -> string, i: int)
    requires Normalize(result, repr).Ok?
    requires 0 <= i < 3
    ensures (result[ExpectedKeys[i]].JString? && Strip(result[ExpectedKeys[i]].s) == result[ExpectedKeys[i]].s)
            ==> Normalize(result, repr).value[i].1 == result[ExpectedKeys[i]].s
    ensures result[ExpectedKeys[i]] == JBool(true) ==> Normalize(result, repr).value[i].1 == "True"
    ensures result[ExpectedKeys[i]] == JBool(false) ==> Normalize(result, repr).value[i].1 == "False"
  {
    StrOfPlainValues(result[ExpectedKeys[i]], repr);
  }

  /** `str(v).strip()` of a stripped string is the string, and of a JSON
      boolean is Python's spelling of it. */
  lemma StrOfPlainValues(v: Json, repr: Json -> string)
    ensures v.JString? && Strip(v.s) == v.s ==> Strip(PyStr(v, repr)) == v.s
    ensures v == JBool(true) ==> Strip(PyStr(v, repr)) == "True"
    ensures v == JBool(false) ==> Strip(PyStr(v, repr)) == "False"
  {
    if v == JBool(true) {
      StripOfWord("True");
    } else if v == JBool(false) {
      StripOfWord("False");
    }
  }

  lemma StripOfWord(w: string)
    requires w in {"True", "False"}
    ensures Strip(w) == w
  {
    assert w[0] in {'T', 'F'} && w[|w| - 1] == 'e';
    StripKeepsUnspaced(w);
  }

  // ---------------------------------------------------------------------
  // validator_llm
  // ---------------------------------------------------------------------

  /** Steps 1 to 3: the rules text, the prompt built from it and the
      record, and the model's reply to that prompt. */
  function ModelReply(svc: Services, instructions: string, extracted: JsonObject, rulesPath: string): (r: Result<string>)
    ensures LoadGuidelines(svc, rulesPath).Err? ==> r == Err(LoadGuidelines(svc, rulesPath).error)
    ensures LoadGuidelines(svc, rulesPath).Ok? ==>
              r == svc.invoke(ValidationPrompt(instructions, LoadGuidelines(svc, rulesPath).value, svc.dumps(extracted)))
  {
    var guidelinesText :- LoadGuidelines(svc, rulesPath);
    svc.invoke(ValidationPrompt(instructions, guidelinesText, svc.dumps(extracted)))
  }

  /** `validator_llm(extracted_data, guidelines_rules)`. */
  function ValidatorLlm(svc: Services, instructions: string, extracted: JsonObject, rulesPath: string): (r: Result<Verdict>)
    ensures LoadGuidelines(svc, rulesPath).Err? ==> r == Err(LoadGuidelines(svc, rulesPath).error)
    ensures ModelReply(svc, instructions, extracted, rulesPath).Err? ==>
              r == Err(ModelReply(svc, instructions, extracted, rulesPath).error)
    ensures ModelReply(svc, instructions, extracted, rulesPath).Ok? ==>
              var reply := ModelReply(svc, instructions, extracted, rulesPath).value;
              && (SearchJson(reply).None? ==>
                    r == Err(ValueError("No JSON object found in validator LLM response:\n" + Strip(reply))))
              && (ParseVerdictReply(svc, reply).Err? ==> r == Err(ParseVerdictReply(svc, reply).error))
              && (ParseVerdictReply(svc, reply).Ok? ==> r == Normalize(ParseVerdictReply(svc, reply).value, svc.repr))
    ensures r.Ok? ==>
              && LoadGuidelines(svc, rulesPath).Ok?
              && var prompt := ValidationPrompt(instructions, LoadGuidelines(svc, rulesPath).value, svc.dumps(extracted));
              && svc.invoke(prompt).Ok?
              && var result := ParseVerdictReply(svc, svc.invoke(prompt).value);
              && result.Ok?
              && |r.value| == 3
              && forall i :: 0 <= i < 3 ==>
                   && ExpectedKeys[i] in result.value
                   && r.value[i] == (ExpectedKeys[i], Strip(PyStr(result.value[ExpectedKeys[i]], svc.repr)))
  {
    var reply :- ModelReply(svc, instructions, extracted, rulesPath);
    var result :- ParseVerdictReply(svc, reply);
    Normalize(result, svc.repr)
  }
}
