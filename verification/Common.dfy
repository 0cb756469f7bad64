/// Result types and the PKCS#11 return codes that the modelled operations give.
module Common {
  datatype Option<+T> = None | Some(value: T)

  datatype Result<+T, +E> = Ok(value: T) | Err(error: E)

  /// The CK_RV values, by name; which number each one is does not matter here.
  datatype Rv =
    | CKR_OK
    | CKR_ACTION_PROHIBITED
    | CKR_ARGUMENTS_BAD
    | CKR_ATTRIBUTE_TYPE_INVALID
    | CKR_ATTRIBUTE_VALUE_INVALID
    | CKR_BUFFER_TOO_SMALL
    | CKR_CRYPTOKI_ALREADY_INITIALIZED
    | CKR_CRYPTOKI_NOT_INITIALIZED
    | CKR_DATA_INVALID
    | CKR_DEVICE_ERROR
    | CKR_GENERAL_ERROR
    | CKR_KEY_SIZE_RANGE
    | CKR_KEY_TYPE_INCONSISTENT
    | CKR_MECHANISM_INVALID
    | CKR_MECHANISM_PARAM_INVALID
    | CKR_OBJECT_HANDLE_INVALID
    | CKR_OPERATION_ACTIVE
    | CKR_OPERATION_NOT_INITIALIZED
    | CKR_PIN_EXPIRED
    | CKR_PIN_INCORRECT
    | CKR_PIN_INVALID
    | CKR_PIN_LOCKED
    | CKR_SESSION_EXISTS
    | CKR_SESSION_HANDLE_INVALID
    | CKR_SESSION_READ_ONLY
    | CKR_SESSION_READ_ONLY_EXISTS
    | CKR_SESSION_READ_WRITE_SO_EXISTS
    | CKR_SIGNATURE_INVALID
    | CKR_SIGNATURE_LEN_RANGE
    | CKR_SLOT_ID_INVALID
    | CKR_STATE_UNSAVEABLE
    | CKR_TEMPLATE_INCOMPLETE
    | CKR_TEMPLATE_INCONSISTENT
    | CKR_TOKEN_NOT_INITIALIZED
    | CKR_USER_ALREADY_LOGGED_IN
    | CKR_USER_ANOTHER_ALREADY_LOGGED_IN
    | CKR_USER_NOT_LOGGED_IN
    | CKR_USER_TYPE_INVALID
    | CKR_OTHER(code: nat)
}
