/** The per-book record that the tree stores and the library mutates in place. */
module Records {
  import opened Wrappers
  import opened MinHeaps

  class Book {
    const bookId: int
    const bookName: string
    const authorName: string
    /** "Yes" when the book can be lent; any other string means it cannot. */
    var availabilityStatus: string
    var borrowedBy: Option<int>
    const reservationHeap: MinHeap

    /** A new book: nobody has borrowed it and its reservation heap is empty. */
    constructor (bookId: int, bookName: string, authorName: string, availabilityStatus: string)
      ensures this.bookId == bookId && this.bookName == bookName && this.authorName == authorName
      ensures this.availabilityStatus == availabilityStatus && this.borrowedBy == None
      ensures fresh(reservationHeap) && reservationHeap.Valid()
      ensures reservationHeap.Items() == multiset{}
    {
      this.bookId := bookId;
      this.bookName := bookName;
      this.authorName := authorName;
      this.availabilityStatus := availabilityStatus;
      this.borrowedBy := None;
      this.reservationHeap := new MinHeap();
    }
  }
}
