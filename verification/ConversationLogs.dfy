/** What the conversation worker makes of a captured record: a log whose content is encrypted. */
module ConversationLogs {
  import opened Wrappers

  /** Each captured payload is cut to this many bytes. */
  const MAX := 1048576

  datatype Facts = Facts(id: string, tenant: string, model: string, status: string, created: int,
                         streamed: bool, maskId: string, detector: string, category: string)

  /** `masking` is the serialized list of masking entries, absent when it is empty; `Some(None)`
      stands for a list that cannot be serialized. */
  datatype RawRecord = RawRecord(facts: Facts, request: string, response: string, masking: Option<Option<string>>)

  datatype Log = Log(facts: Facts, request: string, response: string, masking: string,
                     masked: bool, requestLen: nat, responseLen: nat)

  function Trim(data: string): (r: string)
    ensures Cut(r, data)
  {
    if |data| > MAX then data[..MAX] else data
  }

  /** Zero is the zero time. */
  predicate Loggable(f: Facts) {
    f.id != "" && f.tenant != "" && f.model != "" && f.status in {"ok", "blocked", "error"} && f.created != 0
  }

  /** One encryption, which may fail; every encryption draws its own nonce. */
  type Seal = string -> Option<string>

  function SealUnlessEmpty(data: string, seal: Seal): Option<string> {
    if data == "" then Some("") else seal(Trim(data))
  }

  /** A record without request is stored as metadata only. Any failure drops the record. */
  function Encrypt(rec: RawRecord, sealRequest: Seal, sealResponse: Seal, sealMasking: Seal): Option<Log> {
    if rec.request == "" then
      if Loggable(rec.facts) then Some(Log(rec.facts, "", "", "", false, 0, 0)) else None
    else
      var req := sealRequest(Trim(rec.request));
      if req.None? then None else
      var resp := SealUnlessEmpty(rec.response, sealResponse);
      if resp.None? then None else
      if rec.masking == Some(None) then None else
      var masking := if rec.masking.None? then Some("") else sealMasking(Trim(rec.masking.value.value));
      if masking.None? || !Loggable(rec.facts) || req.value == "" then None
      else Some(Log(rec.facts, req.value, resp.value, masking.value, masking.value != "",
                    |rec.request|, |rec.response|))
  }

  /** Opening undoes sealing, and a sealed value is never empty. */
  ghost predicate Opens(open: string -> Option<string>, seal: Seal) {
    forall p :: seal(p).Some? ==> seal(p).value != "" && open(seal(p).value) == Some(p)
  }

  /** `x` is `data`, or its first 1048576 bytes when it is longer. */
  predicate Cut(x: string, data: string) {
    x <= data && |x| == if |data| <= 1048576 then |data| else 1048576
  }

  predicate OpensCut(stored: string, open: string -> Option<string>, data: string) {
    if stored == "" then data == "" else open(stored).Some? && Cut(open(stored).value, data)
  }

  /** A stored log opens to the captured payloads, each cut to the limit; a log without request
      carries no payload at all, not even a response that was captured. */
  lemma LogOpens(rec: RawRecord, s1: Seal, s2: Seal, s3: Seal, open: string -> Option<string>)
    requires Opens(open, s1) && Opens(open, s2) && Opens(open, s3) && Encrypt(rec, s1, s2, s3).Some?
    ensures var log := Encrypt(rec, s1, s2, s3).value;
      log.facts == rec.facts && log.requestLen == |rec.request| &&
      OpensCut(log.request, open, rec.request) &&
      if rec.request == "" then log.response == "" && log.masking == "" && !log.masked && log.responseLen == 0
      else OpensCut(log.response, open, rec.response) && log.responseLen == |rec.response| &&
           (log.masked <==> rec.masking.Some?) && (log.masking != "" <==> log.masked) &&
           (log.masked ==> rec.masking.value.Some? &&
                           open(log.masking).Some? && Cut(open(log.masking).value, rec.masking.value.value))
  {
  }

  /** Which records are dropped. */
  lemma DroppedWhen(rec: RawRecord, s1: Seal, s2: Seal, s3: Seal, open: string -> Option<string>)
    requires Opens(open, s1) && Opens(open, s2) && Opens(open, s3)
    ensures Encrypt(rec, s1, s2, s3).None? <==>
      rec.facts.id == "" || rec.facts.tenant == "" || rec.facts.model == "" || rec.facts.created == 0 ||
      !(rec.facts.status == "ok" || rec.facts.status == "blocked" || rec.facts.status == "error") ||
      (rec.request != "" &&
       (s1(Trim(rec.request)).None? ||
        (rec.response != "" && s2(Trim(rec.response)).None?) ||
        (rec.masking.Some? && (rec.masking.value.None? || s3(Trim(rec.masking.value.value)).None?))))
  {
  }
}
