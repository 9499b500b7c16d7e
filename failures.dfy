/** The exceptions the services throw, as values. */
module Failures {

  /** `BusinessException` carries a business-rule message; `IllegalArgumentException`
      signals a caller that passed a book without identity. */
  datatype ServiceError = BusinessError(message: string) | IllegalArgument(message: string)

  const DuplicateIsbnMessage := "ISBN já cadastrado"
  const MissingBookIdMessage := "Book id cant be null."
  const BookAlreadyLoanedMessage := "Book already loaned"
  const BookNotFoundForIsbnMessage := "Book not found for passed isbn"
}
