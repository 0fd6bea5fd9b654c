/** The request record of src/Http/Core/HttpRequest that the parsers fill in. */
module Http {
  const BAD_REQUEST := 400
  const REQUEST_TIMEOUT := 408
  const PAYLOAD_TOO_LARGE := 413
  const HEADER_FIELDS_TOO_LARGE := 431
  const INTERNAL_SERVER_ERROR := 500
  const NOT_IMPLEMENTED := 501
  const VERSION_NOT_SUPPORTED := 505

  const CONTENT_LENGTH := "content-length"
  const TRANSFER_ENCODING := "transfer-encoding"

  /** Header names are stored in lower case. */
  type Headers = map<string, string>

  datatype ParseResult = ParseIncomplete | ParseComplete | ParseError

  class HttpRequest {
    var maxBodySize: nat
    var method_: string
    var path: string
    var version: string
    var headers: Headers
    var body: string

    constructor (maxBodySize: nat)
      ensures this.maxBodySize == maxBodySize
      ensures method_ == path == version == body == "" && headers == map[]
    {
      this.maxBodySize := maxBodySize;
      method_, path, version, body, headers := "", "", "", "", map[];
    }
  }
}
