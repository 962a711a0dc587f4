/** Field widths of the wire protocol (sizes.py) and the server's version. */
module Sizes {

  // Request header fields.
  const ClientIdSize: nat := 16
  const VersionSize: nat := 1
  const CodeSize: nat := 2
  const PayloadSizeSize: nat := 4

  // Registration request payload.
  const NameSize: nat := 255
  const PublicKeySize: nat := 160

  // Send-message request payload.
  const MessageIdSize: nat := 4
  const MessageTypeSize: nat := 1
  const MessageContentSizeSize: nat := 4

  /** `uuid.uuid4().bytes` is always 16 bytes long. */
  const UuidSize: nat := 16

  /** The request header: client id, version, code, payload size. */
  const RequestHeaderSize: nat := ClientIdSize + VersionSize + CodeSize + PayloadSizeSize

  /** The response header: version, code, payload size. */
  const ResponseHeaderSize: nat := VersionSize + CodeSize + PayloadSizeSize

  /** Width of one entry of a clients-list payload for registered clients. */
  const ClientEntrySize: nat := ClientIdSize + NameSize

  /** The fixed part of a send-message payload before the content. */
  const SendHeaderSize: nat := ClientIdSize + MessageTypeSize + MessageContentSizeSize

  /** The fixed part of one waiting-message entry before the content. */
  const WaitingEntryHeaderSize: nat := MessageIdSize + MessageTypeSize + MessageContentSizeSize

  /** server.py's SERVER_VERSION. */
  const ServerVersion: nat := 1
}

/** Request and response codes. The codes module of the server is not part of
    this model; the values below are assumed, and nothing proved depends on
    them beyond their being distinct and fitting a 16-bit field. */
module Codes {

  const RegisterRequest: nat := 1000
  const GetClientsListRequest: nat := 1001
  const GetClientPublicKeyRequest: nat := 1002
  const SendClientMessageRequest: nat := 1003
  const GetWaitingMessagesRequest: nat := 1004

  const RegistrationSuccessfulResponse: nat := 2000
  const ClientsListReturnedResponse: nat := 2001
  const ClientPublicKeyReturnedResponse: nat := 2002
  const MessageSentToClientResponse: nat := 2003
  const WaitingMessagesReturnedResponse: nat := 2004
  const GeneralError: nat := 9000

  /** The five codes `handle_request` has a handler for. */
  const RequestCodes: set<nat> := {
    RegisterRequest, GetClientsListRequest, GetClientPublicKeyRequest,
    SendClientMessageRequest, GetWaitingMessagesRequest
  }

  /** The response code each handler answers with on success: an independent
      table against which the dispatcher is checked. */
  function SuccessCode(request: nat): (r: nat)
    requires request in RequestCodes
    ensures r != GeneralError && r < 0x1_0000
  {
    if request == RegisterRequest then RegistrationSuccessfulResponse
    else if request == GetClientsListRequest then ClientsListReturnedResponse
    else if request == GetClientPublicKeyRequest then ClientPublicKeyReturnedResponse
    else if request == SendClientMessageRequest then MessageSentToClientResponse
    else WaitingMessagesReturnedResponse
  }
}
