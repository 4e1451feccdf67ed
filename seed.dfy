/** The sample records that initializeData writes when a collection key is
    absent. */
module Seed {
  import opened Types

  const SampleUsers: seq<User> := [
    User("demo_student", "Alex Kumar", "alex@student.iitm.ac.in", Student,
         Some("+91 9876543210"), Some("CS21B001"), 45,
         Some(["evt_001", "evt_003"]), Some(["evt_004", "evt_005"]), None),
    User("demo_club", "WebOps Admin", "admin@webops.iitm.ac.in", Club,
         None, None, 0, None, None, Some("club_webops"))
  ]

  const SampleEvents: seq<Event> := [
    Event("evt_001", "Blockchain 101 Workshop", "Blockchain Club IITM", "club_blockchain",
          "/assets/blockchain-logo.svg", "Lecture Hall 3", "2025-01-15", "14:00", "17:00",
          Upcoming, 10,
          "Learn the fundamentals of blockchain technology, smart contracts, and decentralized applications. Perfect for beginners!",
          100, 45, ["demo_student"], []),
    Event("evt_002", "React Masterclass", "WebOps Club IITM", "club_webops",
          "/assets/webops-logo.svg", "Computer Lab 1", "2025-01-18", "10:00", "16:00",
          Upcoming, 15,
          "Comprehensive React workshop covering hooks, state management, and modern development practices.",
          60, 35, [], []),
    Event("evt_003", "Web3 Hackathon", "Blockchain Club IITM", "club_blockchain",
          "/assets/blockchain-logo.svg", "Innovation Lab", "2025-01-25", "09:00", "21:00",
          Upcoming, 25,
          "24-hour hackathon building decentralized applications. Prizes worth \U{20B9}50,000!",
          80, 72, ["demo_student"], []),
    Event("evt_004", "Git & GitHub Workshop", "WebOps Club IITM", "club_webops",
          "/assets/webops-logo.svg", "CS Seminar Hall", "2024-12-20", "15:00", "18:00",
          Completed, 8,
          "Version control essentials for developers. Learn Git workflows and collaboration.",
          50, 48, [], ["demo_student"]),
    Event("evt_005", "Smart Contract Security", "Blockchain Club IITM", "club_blockchain",
          "/assets/blockchain-logo.svg", "Room 301", "2024-12-15", "16:00", "19:00",
          Completed, 12,
          "Learn about common vulnerabilities and security best practices in smart contract development.",
          40, 37, [], ["demo_student"])
  ]
}
