/**
 * `verify_signature` (main.py): the decision whether a webhook request was
 * signed with the shared secret. HMAC-SHA256 itself is a foreign
 * cryptographic call and enters as a parameter `mac`.
 */
module Signature {
  import opened Wrappers
  import opened Text

  type Bytes = seq<bv8>

  /**
   * HMAC-SHA256 keyed by the secret over the raw body, rendered by
   * `hexdigest()` (64 lowercase hex characters for the real function).
   */
  type Mac = (string, Bytes) -> string

  /**
   * `Accept` lets the request proceed, `Reject` is the 401 "invalid
   * signature" answer, and `Fault` is the `TypeError` that
   * `hmac.compare_digest` raises when either `str` argument holds a non-ASCII
   * character (header values are decoded as Latin-1, so a client can send
   * one); it escapes the handler and surfaces as a 500 rather than a 401.
   */
  datatype Verdict = Accept | Reject | Fault

  function VerifySignature(mac: Mac, secret: string, body: Bytes, header: Option<string>): (v: Verdict)
    ensures v == Accept <==>
      header.Some? && header.value != "" && IsAscii(header.value) && header.value == mac(secret, body)
    ensures v == Fault <==>
      header.Some? && header.value != "" && (!IsAscii(header.value) || !IsAscii(mac(secret, body)))
    ensures header == None || header == Some("") ==> v == Reject
  {
    if header.None? || header.value == "" then Reject
    else if !IsAscii(mac(secret, body)) || !IsAscii(header.value) then Fault
    else if mac(secret, body) == header.value then Accept
    else Reject
  }
}
