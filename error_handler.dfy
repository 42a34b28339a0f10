/** The global error middleware: it classifies an error by its kind and
    answers with a status code and a message. */
module ErrorHandler {
  import opened Basics

  /** The fields of an error object the middleware reads. A field JavaScript
      would see as absent is `None`, or 0 / "" for the numeric and string
      ones. `keyPattern` lists the keys of a duplicate-key error's
      `keyPattern` object in order, `errors` the messages of a validation
      error's `errors` object, `details` the messages of a Joi error's
      `details` array. */
  datatype ErrorInfo = ErrorInfo(
    name: string,
    code: int,
    keyPattern: Option<seq<string>>,
    errors: Option<seq<string>>,
    isJoi: bool,
    details: Option<seq<string>>,
    message: string,
    statusCode: int)

  /** The response written, or a `TypeError` raised inside the middleware
      itself (reading a missing `keyPattern`, `errors` or `details[0]`). */
  datatype Response = Respond(status: int, message: string) | Throws

  const NotFound := "Không tìm thấy tài nguyên"
  const Duplicate := "Dữ liệu đã tồn tại"
  const DuplicateEmail := "Email đã được đăng ký"
  const DuplicateUsername := "Tên người dùng đã được sử dụng"
  const InvalidToken := "Token không hợp lệ. Vui lòng đăng nhập lại."
  const ExpiredToken := "Token đã hết hạn. Vui lòng đăng nhập lại."
  const ServerError := "Lỗi server"

  /** `parts.join(sep)`. */
  function Join(parts: seq<string>, sep: string): (r: string)
    ensures parts == [] ==> r == ""
    ensures |parts| == 1 ==> r == parts[0]
    ensures |parts| >= 1 ==> |r| >= |parts[0]| && r[..|parts[0]|] == parts[0]
  {
    if parts == [] then ""
    else if |parts| == 1 then parts[0]
    else parts[0] + sep + Join(parts[1..], sep)
  }

  /** The message of a duplicate-key error, chosen by the first key of the
      unique index that was violated. */
  function DuplicateMessage(keys: seq<string>): (m: string)
    ensures keys != [] && keys[0] == "email" ==> m == DuplicateEmail
    ensures keys != [] && keys[0] == "username" ==> m == DuplicateUsername
    ensures keys == [] || (keys[0] != "email" && keys[0] != "username") ==> m == Duplicate
  {
    if keys == [] then Duplicate
    else if keys[0] == "email" then DuplicateEmail
    else if keys[0] == "username" then DuplicateUsername
    else Duplicate
  }

  /** `errorHandler`: the local error is overwritten by each matching check in
      turn, so the last match wins; the response falls back to 500 and
      'Lỗi server'. */
  method HandleError(err: ErrorInfo) returns (r: Response)
    ensures r == Classify(err)
  {
    var status := err.statusCode;
    var message := err.message;
    if err.name == "CastError" {
      status, message := 404, NotFound;
    }
    if err.code == 11000 {
      if err.keyPattern.None? {
        return Throws;
      }
      status, message := 400, DuplicateMessage(err.keyPattern.value);
    }
    if err.name == "ValidationError" {
      if err.errors.None? {
        return Throws;
      }
      status, message := 400, Join(err.errors.value, ", ");
    }
    if err.isJoi {
      if err.details.None? || err.details.value == [] {
        return Throws;
      }
      status, message := 400, err.details.value[0];
    }
    if err.name == "JsonWebTokenError" {
      status, message := 401, InvalidToken;
    }
    if err.name == "TokenExpiredError" {
      status, message := 401, ExpiredToken;
    }
    r := Respond(if status != 0 then status else 500, if message != "" then message else ServerError);
  }

  /** The same classification as a precedence order: a check that would
      fail on a missing field raises first; otherwise the latest matching
      check decides. */
  function Classify(err: ErrorInfo): (r: Response)
    ensures r.Respond? ==> r.status != 0 && r.message != ""
    ensures r.Throws? <==>
              || (err.code == 11000 && err.keyPattern.None?)
              || (err.name == "ValidationError" && err.errors.None?)
              || (err.isJoi && (err.details.None? || err.details.value == []))
  {
    if err.code == 11000 && err.keyPattern.None? then Throws
    else if err.name == "ValidationError" && err.errors.None? then Throws
    else if err.isJoi && (err.details.None? || err.details.value == []) then Throws
    else
      var chosen :=
        if err.name == "TokenExpiredError" then Respond(401, ExpiredToken)
        else if err.name == "JsonWebTokenError" then Respond(401, InvalidToken)
        else if err.isJoi then Respond(400, err.details.value[0])
        else if err.name == "ValidationError" then Respond(400, Join(err.errors.value, ", "))
        else if err.code == 11000 then Respond(400, DuplicateMessage(err.keyPattern.value))
        else if err.name == "CastError" then Respond(404, NotFound)
        else Respond(err.statusCode, err.message);
      Respond(if chosen.status != 0 then chosen.status else 500,
              if chosen.message != "" then chosen.message else ServerError)
  }

  /** An invalid id is answered 404 'Không tìm thấy tài nguyên', unless a
      later check (duplicate key, Joi) also matches. */
  lemma CastErrorIsNotFound(err: ErrorInfo)
    requires err.name == "CastError" && err.code != 11000 && !err.isJoi
    ensures Classify(err) == Respond(404, NotFound)
  {
  }

  /** A duplicate key is answered 400 with a message chosen by the first key
      of the violated index. */
  lemma DuplicateKeyIsBadRequest(err: ErrorInfo)
    requires err.code == 11000 && err.keyPattern.Some? && !err.isJoi
    requires err.name != "ValidationError" && err.name != "JsonWebTokenError" && err.name != "TokenExpiredError"
    ensures Classify(err) == Respond(400, DuplicateMessage(err.keyPattern.value))
    ensures err.keyPattern.value != [] && err.keyPattern.value[0] == "email" ==> Classify(err).message == DuplicateEmail
  {
  }

  /** A validation error is answered 400 with its field messages joined by
      ", "; with no field message at all the text falls back to
      'Lỗi server'. */
  lemma ValidationErrorIsBadRequest(err: ErrorInfo)
    requires err.name == "ValidationError" && err.errors.Some? && !err.isJoi
    requires err.code != 11000 || err.keyPattern.Some?
    ensures Classify(err).Respond? && Classify(err).status == 400
    ensures err.errors.value != [] && err.errors.value[0] != "" ==> Classify(err).message == Join(err.errors.value, ", ")
    ensures err.errors.value == [] ==> Classify(err).message == ServerError
  {
    if err.errors.value != [] && err.errors.value[0] != "" {
      var j := Join(err.errors.value, ", ");
      assert j[..|err.errors.value[0]|] == err.errors.value[0];
    }
  }

  /** A Joi error is answered 400 with its first detail message, unless it
      is also a token error. */
  lemma JoiErrorIsBadRequest(err: ErrorInfo)
    requires err.isJoi && err.details.Some? && err.details.value != [] && err.details.value[0] != ""
    requires err.code != 11000 || err.keyPattern.Some?
    requires err.name != "ValidationError" || err.errors.Some?
    requires err.name != "JsonWebTokenError" && err.name != "TokenExpiredError"
    ensures Classify(err) == Respond(400, err.details.value[0])
  {
  }

  /** Both token errors are answered 401, whatever else the error carries,
      as long as the middleware itself does not fail. */
  lemma TokenErrorsAreUnauthorized(err: ErrorInfo)
    requires err.name == "JsonWebTokenError" || err.name == "TokenExpiredError"
    requires err.code != 11000 || err.keyPattern.Some?
    requires !err.isJoi || (err.details.Some? && err.details.value != [])
    ensures Classify(err).Respond? && Classify(err).status == 401
    ensures Classify(err).message == (if err.name == "JsonWebTokenError" then InvalidToken else ExpiredToken)
  {
  }

  /** Any other error keeps its own status code and message, with 500 and
      'Lỗi server' in place of missing ones. */
  lemma OtherErrorsKeepTheirStatus(err: ErrorInfo)
    requires err.name !in {"CastError", "ValidationError", "JsonWebTokenError", "TokenExpiredError"}
    requires err.code != 11000 && !err.isJoi
    ensures Classify(err) == Respond(if err.statusCode != 0 then err.statusCode else 500,
                                     if err.message != "" then err.message else ServerError)
  {
  }
}
