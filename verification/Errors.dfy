// boost::system::error_code, reduced to the values the programs compare with. `ec.value() != 0` in the
// C++ code is `ec != Success` here.
module Errors {
  datatype ErrorCode = Success | Eof | NotFound | Aborted | InvalidResponse | Other(value: int)
}
