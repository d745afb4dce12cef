/**
 * CustomProxyProvider.validateApiKey: a format check on the key, then the
 * classification of one probe request's outcome into a validation result.
 * The probe request itself is not modelled; its outcome is an input.
 */
module KeyValidation {
  import opened Wrappers

  /** The value a caller passes as the key: a string, or any other JavaScript value. */
  datatype KeyValue = StringKey(text: string) | NonStringKey

  /** What the probe request produced: an HTTP status, or a thrown network-level error. */
  datatype Outcome = Status(code: int) | NetworkError

  /** `{ success, error? }`; `error` is absent exactly when `success` holds. */
  datatype ValidationResult = ValidationResult(success: bool, error: Option<string>)

  const FormatErrorMessage: string := "无效的 API Key 格式"
  const AuthErrorMessage: string := "API Key 验证失败"
  const NetworkErrorMessage: string := "网络错误，无法验证密钥"

  const Valid: ValidationResult := ValidationResult(true, None)

  function Invalid(message: string): ValidationResult {
    ValidationResult(false, Some(message))
  }

  /** Passes `!key || typeof key !== 'string'` unrejected: a non-empty string. */
  predicate IsWellFormedKey(key: KeyValue) {
    key.StringKey? && key.text != ""
  }

  /** `response.ok`: the status lies in 200..299. */
  predicate IsOk(code: int) {
    200 <= code <= 299
  }

  /** The try/catch around the probe and its if/else chain on the status. */
  function ClassifyOutcome(probe: Outcome): (r: ValidationResult)
    ensures r.success <==> r.error.None?
    ensures !r.success ==> r.error.value in {AuthErrorMessage, NetworkErrorMessage}
  {
    match probe
    case NetworkError => Invalid(NetworkErrorMessage)
    case Status(code) =>
      if IsOk(code) || code == 404 then Valid
      else if code == 401 || code == 403 then Invalid(AuthErrorMessage)
      else Valid
  }

  /** validateApiKey(key), given the outcome the probe would have had. */
  function ValidateApiKey(key: KeyValue, probe: Outcome): (r: ValidationResult)
    ensures r.success <==> r.error.None?
    ensures !IsWellFormedKey(key) ==> r == Invalid(FormatErrorMessage)
    ensures IsWellFormedKey(key) ==> r.error != Some(FormatErrorMessage)
  {
    if !IsWellFormedKey(key) then Invalid(FormatErrorMessage)
    else ClassifyOutcome(probe)
  }

  /** A malformed key is rejected with the format error, whatever the probe would say. */
  lemma MalformedKeyRejected(key: KeyValue, probe: Outcome)
    requires !IsWellFormedKey(key)
    ensures ValidateApiKey(key, probe) == ValidationResult(false, Some(FormatErrorMessage))
  {
  }

  /** For a malformed key the probe's outcome is never consulted. */
  lemma MalformedKeyIgnoresProbe(key: KeyValue, probe1: Outcome, probe2: Outcome)
    requires !IsWellFormedKey(key)
    ensures ValidateApiKey(key, probe1) == ValidateApiKey(key, probe2)
  {
  }

  /** A 2xx status or 404 accepts a well-formed key. */
  lemma OkOrNotFoundAccepted(key: KeyValue, code: int)
    requires IsWellFormedKey(key)
    requires 200 <= code <= 299 || code == 404
    ensures ValidateApiKey(key, Status(code)) == ValidationResult(true, None)
  {
  }

  /** 401 and 403 reject the key with the authentication error. */
  lemma AuthStatusRejected(key: KeyValue, code: int)
    requires IsWellFormedKey(key)
    requires code == 401 || code == 403
    ensures ValidateApiKey(key, Status(code)) == ValidationResult(false, Some(AuthErrorMessage))
  {
  }

  /** Every status other than 401 and 403 (3xx, other 4xx, 5xx, anything) accepts the key. */
  lemma OtherStatusAccepted(key: KeyValue, code: int)
    requires IsWellFormedKey(key)
    requires code != 401 && code != 403
    ensures ValidateApiKey(key, Status(code)) == ValidationResult(true, None)
  {
  }

  /** A network-level failure rejects the key with the network error. */
  lemma NetworkFailureRejected(key: KeyValue)
    requires IsWellFormedKey(key)
    ensures ValidateApiKey(key, NetworkError) == ValidationResult(false, Some(NetworkErrorMessage))
  {
  }

  /**
   * The whole policy in one statement: validation succeeds exactly when the key is
   * well formed and the probe returned a status other than 401 and 403.
   */
  lemma ValidationSucceedsIff(key: KeyValue, probe: Outcome)
    ensures ValidateApiKey(key, probe).success
        <==> IsWellFormedKey(key) && probe.Status? && probe.code != 401 && probe.code != 403
  {
  }

  /** The three error messages are distinct, so a failure determines its cause. */
  lemma ErrorMessagesDistinct()
    ensures FormatErrorMessage != AuthErrorMessage
    ensures FormatErrorMessage != NetworkErrorMessage
    ensures AuthErrorMessage != NetworkErrorMessage
  {
    assert FormatErrorMessage[0] != AuthErrorMessage[0];
    assert FormatErrorMessage[0] != NetworkErrorMessage[0];
    assert AuthErrorMessage[0] != NetworkErrorMessage[0];
  }
}
